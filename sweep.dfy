/**
 * The ordered sweeps of pkg_testing_tools/use.py: `yield_use_flags_toggles_sorted`
 * (every assignment, grouped by how many flags it marks) and
 * `yield_use_flags_toggles_sorted_split` (the cartesian product of two sweeps).
 *
 * The generators become sequences: a generator that is left early by `break`
 * yields a prefix of the sequence modelled here.
 */
module Sweep {
  import opened Toggles

  // ---------------------------------------------------------------------------
  // itertools.combinations and marking masks

  /** `[x] + c` for every c of cs, in order. */
  function Prepend(x: nat, cs: seq<seq<nat>>): seq<seq<nat>>
  {
    seq(|cs|, i requires 0 <= i < |cs| => [x] + cs[i])
  }

  /**
   * `itertools.combinations(range(lo, n), k)`: the k-element position tuples
   * drawn from lo .. n-1, each increasing, in lexicographic order.
   */
  function Combinations(lo: nat, n: nat, k: nat): seq<seq<nat>>
    decreases n - lo
  {
    if k == 0 then [[]]
    else if lo >= n then []
    else Prepend(lo, Combinations(lo + 1, n, k - 1)) + Combinations(lo + 1, n, k)
  }

  /** `[lo] + c` is increasing and within lo .. n-1 when c is increasing and within lo + 1 .. n-1. */
  lemma PrependShape(lo: nat, n: nat, c: seq<nat>)
    requires forall p :: p in c ==> lo + 1 <= p < n
    requires forall i, j :: 0 <= i < j < |c| ==> c[i] < c[j]
    requires lo < n
    ensures forall p :: p in [lo] + c ==> lo <= p < n
    ensures forall i, j :: 0 <= i < j < |[lo] + c| ==> ([lo] + c)[i] < ([lo] + c)[j]
  {
    var d := [lo] + c;
    forall i, j | 0 <= i < j < |d| ensures d[i] < d[j] {
      assert d[j] == c[j - 1];
      assert c[j - 1] in c;
      if i > 0 {
        assert d[i] == c[i - 1];
      }
    }
  }

  /** Each k-tuple has k positions, all in lo .. n-1, in increasing order. */
  lemma {:induction false} CombinationShape(lo: nat, n: nat, k: nat, c: seq<nat>)
    requires c in Combinations(lo, n, k)
    ensures |c| == k
    ensures forall p :: p in c ==> lo <= p < n
    ensures forall i, j :: 0 <= i < j < |c| ==> c[i] < c[j]
    decreases n - lo
  {
    if k > 0 && lo < n {
      var first := Combinations(lo + 1, n, k - 1);
      var rest := Combinations(lo + 1, n, k);
      var pf := Prepend(lo, first);
      assert Combinations(lo, n, k) == pf + rest;
      if c in pf {
        var i :| 0 <= i < |pf| && c == pf[i];
        var c' := first[i];
        assert c' in first;
        CombinationShape(lo + 1, n, k - 1, c');
        assert c == [lo] + c';
        PrependShape(lo, n, c');
      } else {
        assert c in rest;
        CombinationShape(lo + 1, n, k, c);
      }
    }
  }

  lemma CombinationWithin(lo: nat, n: nat, k: nat, c: seq<nat>)
    requires c in Combinations(lo, n, k)
    ensures forall p :: p in c ==> p < n
  {
    CombinationShape(lo, n, k, c);
  }

  lemma CombinationAbove(lo: nat, n: nat, k: nat, c: seq<nat>)
    requires c in Combinations(lo, n, k)
    ensures forall p :: p in c ==> lo <= p
  {
    CombinationShape(lo, n, k, c);
  }

  /** Position j of the mask tells whether position lo + j occurs in c. */
  function MaskOf(c: seq<nat>, lo: nat, n: nat): (mask: seq<bool>)
    requires lo <= n
    ensures |mask| == n - lo
  {
    seq(n - lo, j requires 0 <= j < n - lo => lo + j in c)
  }

  function MaskList(cs: seq<seq<nat>>, lo: nat, n: nat): seq<seq<bool>>
    requires lo <= n
  {
    seq(|cs|, i requires 0 <= i < |cs| => MaskOf(cs[i], lo, n))
  }

  /** How many positions a mask marks. */
  function Ones(mask: seq<bool>): nat
  {
    if mask == [] then 0 else (if mask[0] then 1 else 0) + Ones(mask[1..])
  }

  function Falses(m: nat): seq<bool>
  {
    seq(m, _ => false)
  }

  function Cons(b: bool, ms: seq<seq<bool>>): seq<seq<bool>>
  {
    seq(|ms|, i requires 0 <= i < |ms| => [b] + ms[i])
  }

  /** The masks of length m that mark k positions, in the order of `Combinations`. */
  function Masks(m: nat, k: nat): seq<seq<bool>>
  {
    if k == 0 then [Falses(m)]
    else if m == 0 then []
    else Cons(true, Masks(m - 1, k - 1)) + Cons(false, Masks(m - 1, k))
  }

  /** The binomial coefficient C(m, k), by Pascal's rule. */
  function Choose(m: nat, k: nat): nat
  {
    if k == 0 then 1 else if m == 0 then 0 else Choose(m - 1, k - 1) + Choose(m - 1, k)
  }

  /** C(m, 0) + ... + C(m, upto - 1). */
  function SumChoose(m: nat, upto: nat): nat
  {
    if upto == 0 then 0 else SumChoose(m, upto - 1) + Choose(m, upto - 1)
  }

  /** The masks of length n marking fewer than `upto` positions, group by group. */
  function MaskPrefix(n: nat, upto: nat): seq<seq<bool>>
  {
    if upto == 0 then [] else MaskPrefix(n, upto - 1) + Masks(n, upto - 1)
  }

  predicate Distinct<T(==)>(s: seq<T>)
  {
    forall i, j :: 0 <= i < j < |s| ==> s[i] != s[j]
  }

  // ---------------------------------------------------------------------------
  // The sorted sweep

  function RenderAll(ms: seq<seq<bool>>, iuse: seq<string>, inverted: bool): seq<seq<string>>
    requires forall i :: 0 <= i < |ms| ==> |ms[i]| == |iuse|
  {
    seq(|ms|, i requires 0 <= i < |ms| => Render(ms[i], iuse, inverted))
  }

  /** What the generator yields for the position tuples `combos` of one group. */
  function SortedGroup(combos: seq<seq<nat>>, iuse: seq<string>, inverted: bool): seq<seq<string>>
  {
    seq(|combos|, i requires 0 <= i < |combos| => Render(MaskOf(combos[i], 0, |iuse|), iuse, inverted))
  }

  /** What `yield_use_flags_toggles_sorted` yields for k = 0 .. upto - 1. */
  function SortedPrefix(iuse: seq<string>, inverted: bool, upto: nat): seq<seq<string>>
  {
    if upto == 0 then []
    else SortedPrefix(iuse, inverted, upto - 1) + SortedGroup(Combinations(0, |iuse|, upto - 1), iuse, inverted)
  }

  /** Everything `yield_use_flags_toggles_sorted(iuse, inverted)` yields, in order. */
  function SortedSweep(iuse: seq<string>, inverted: bool): seq<seq<string>>
  {
    SortedPrefix(iuse, inverted, |iuse| + 1)
  }

  /** How many flags an assignment enables. */
  function EnabledCount(flags: seq<string>, iuse: seq<string>): nat
    requires |flags| == |iuse|
  {
    if flags == [] then 0 else (if flags[0] == iuse[0] then 1 else 0) + EnabledCount(flags[1..], iuse[1..])
  }

  /**
   * yield_use_flags_toggles_sorted: for k = 0 .. n and every k-tuple of
   * positions, start from all-unmarked, overwrite the k positions in place
   * and yield the glued tokens.
   */
  method YieldUseFlagsTogglesSorted(iuse: seq<string>, inverted: bool) returns (sweep: seq<seq<string>>)
    ensures sweep == SortedSweep(iuse, inverted)
  {
    var n := |iuse|;
    sweep := [];
    for k := 0 to n + 1
      invariant sweep == SortedPrefix(iuse, inverted, k)
    {
      var combos := Combinations(0, n, k);
      for c := 0 to |combos|
        invariant sweep == SortedPrefix(iuse, inverted, k) + SortedGroup(combos[..c], iuse, inverted)
      {
        CombinationWithin(0, n, k, combos[c]);
        var flags := MarkPositions(combos[c], iuse, inverted);
        SortedGroupSnoc(combos, c, iuse, inverted);
        sweep := sweep + [flags];
      }
      assert combos[..|combos|] == combos;
    }
  }

  /** The group of the first c + 1 tuples extends the group of the first c by one rendering. */
  lemma SortedGroupSnoc(combos: seq<seq<nat>>, c: nat, iuse: seq<string>, inverted: bool)
    requires c < |combos|
    ensures SortedGroup(combos[..c + 1], iuse, inverted) ==
      SortedGroup(combos[..c], iuse, inverted) + [Render(MaskOf(combos[c], 0, |iuse|), iuse, inverted)]
  {
    var a := SortedGroup(combos[..c + 1], iuse, inverted);
    var b := SortedGroup(combos[..c], iuse, inverted) + [Render(MaskOf(combos[c], 0, |iuse|), iuse, inverted)];
    assert |a| == |b|;
    forall i | 0 <= i < |a| ensures a[i] == b[i] {
      assert combos[..c + 1][i] == combos[i];
    }
  }

  /**
   * The body of the sweep for one tuple: start from all-unmarked, overwrite
   * the tuple's positions in place, and glue each prefix to its flag.
   */
  method MarkPositions(onesPos: seq<nat>, iuse: seq<string>, inverted: bool) returns (flags: seq<string>)
    requires forall p :: p in onesPos ==> p < |iuse|
    ensures flags == Render(MaskOf(onesPos, 0, |iuse|), iuse, inverted)
  {
    var strEnabled := if !inverted then "" else "-";
    var strDisabled := if !inverted then "-" else "";
    var n := |iuse|;
    var vec := new string[n](_ => strDisabled);
    for p := 0 to |onesPos|
      invariant forall i :: 0 <= i < n ==> vec[i] == if i in onesPos[..p] then strEnabled else strDisabled
    {
      assert onesPos[p] in onesPos;
      assert onesPos[..p + 1] == onesPos[..p] + [onesPos[p]];
      vec[onesPos[p]] := strEnabled;
    }
    assert onesPos[..|onesPos|] == onesPos;
    flags := seq(n, i requires 0 <= i < n reads vec => vec[i] + iuse[i]);
    forall i | 0 <= i < n ensures flags[i] == Render(MaskOf(onesPos, 0, n), iuse, inverted)[i] {
      assert MaskOf(onesPos, 0, n)[i] == (i in onesPos);
    }
  }

  // ---------------------------------------------------------------------------
  // Masks: shape, count, completeness, distinctness, order

  lemma {:induction false} OnesFalses(m: nat)
    ensures Ones(Falses(m)) == 0
  {
    if m > 0 {
      assert Falses(m)[1..] == Falses(m - 1);
      OnesFalses(m - 1);
    }
  }

  lemma {:induction false} OnesZero(mask: seq<bool>)
    requires Ones(mask) == 0
    ensures mask == Falses(|mask|)
  {
    if mask != [] {
      OnesZero(mask[1..]);
      assert mask == [mask[0]] + mask[1..];
    }
  }

  lemma {:induction false} OnesBound(mask: seq<bool>)
    ensures Ones(mask) <= |mask|
  {
    if mask != [] {
      OnesBound(mask[1..]);
    }
  }

  lemma ConsHead(b: bool, x: seq<bool>)
    ensures ([b] + x)[1..] == x && ([b] + x)[0] == b
    ensures Ones([b] + x) == (if b then 1 else 0) + Ones(x)
  {
    assert ([b] + x)[1..] == x;
  }

  /** Every mask in Masks(m, k) has length m and marks exactly k positions. */
  lemma {:induction false} MasksShape(m: nat, k: nat)
    ensures forall i :: 0 <= i < |Masks(m, k)| ==> |Masks(m, k)[i]| == m && Ones(Masks(m, k)[i]) == k
  {
    if k == 0 {
      OnesFalses(m);
    } else if m > 0 {
      var a := Masks(m - 1, k - 1);
      var b := Masks(m - 1, k);
      var ms := Masks(m, k);
      assert ms == Cons(true, a) + Cons(false, b);
      MasksShape(m - 1, k - 1);
      MasksShape(m - 1, k);
      forall i | 0 <= i < |ms| ensures |ms[i]| == m && Ones(ms[i]) == k {
        if i < |a| {
          assert ms[i] == [true] + a[i];
          ConsHead(true, a[i]);
        } else {
          assert ms[i] == [false] + b[i - |a|];
          ConsHead(false, b[i - |a|]);
        }
      }
    }
  }

  lemma MasksMember(m: nat, k: nat, mask: seq<bool>)
    requires mask in Masks(m, k)
    ensures |mask| == m && Ones(mask) == k
  {
    MasksShape(m, k);
  }

  /** There are C(m, k) masks of length m marking k positions. */
  lemma {:induction false} MasksCount(m: nat, k: nat)
    ensures |Masks(m, k)| == Choose(m, k)
  {
    if k > 0 && m > 0 {
      MasksCount(m - 1, k - 1);
      MasksCount(m - 1, k);
    }
  }

  /** Every mask marking k positions is among Masks(|mask|, k). */
  lemma {:induction false} MasksComplete(mask: seq<bool>, k: nat)
    requires Ones(mask) == k
    ensures mask in Masks(|mask|, k)
  {
    var m := |mask|;
    if k == 0 {
      OnesZero(mask);
    } else {
      assert m > 0;
      ConsHead(mask[0], mask[1..]);
      assert mask == [mask[0]] + mask[1..];
      if mask[0] {
        MasksComplete(mask[1..], k - 1);
        var a := Masks(m - 1, k - 1);
        var i :| 0 <= i < |a| && a[i] == mask[1..];
        assert Cons(true, a)[i] == mask;
        assert mask in Cons(true, a);
      } else {
        MasksComplete(mask[1..], k);
        var b := Masks(m - 1, k);
        var i :| 0 <= i < |b| && b[i] == mask[1..];
        assert Cons(false, b)[i] == mask;
        assert mask in Cons(false, b);
      }
    }
  }

  lemma {:induction false} MasksDistinct(m: nat, k: nat)
    ensures Distinct(Masks(m, k))
  {
    if k > 0 && m > 0 {
      MasksDistinct(m - 1, k - 1);
      MasksDistinct(m - 1, k);
      ConsDistinct(Masks(m - 1, k - 1), Masks(m - 1, k));
    }
  }

  /** Marking the first position of one distinct list and not of another keeps them all apart. */
  lemma ConsDistinct(a: seq<seq<bool>>, b: seq<seq<bool>>)
    requires Distinct(a) && Distinct(b)
    ensures Distinct(Cons(true, a) + Cons(false, b))
  {
    var ms := Cons(true, a) + Cons(false, b);
    forall i, j | 0 <= i < j < |ms| ensures ms[i] != ms[j] {
      ConsApart(a, b, i, j);
    }
  }

  lemma ConsApart(a: seq<seq<bool>>, b: seq<seq<bool>>, i: nat, j: nat)
    requires Distinct(a) && Distinct(b)
    requires i < j < |a| + |b|
    ensures (Cons(true, a) + Cons(false, b))[i] != (Cons(true, a) + Cons(false, b))[j]
  {
    var ms := Cons(true, a) + Cons(false, b);
    if j < |a| {
      ConsHead(true, a[i]);
      ConsHead(true, a[j]);
      assert ms[i] == [true] + a[i] && ms[j] == [true] + a[j];
    } else if i >= |a| {
      ConsHead(false, b[i - |a|]);
      ConsHead(false, b[j - |a|]);
      assert ms[i] == [false] + b[i - |a|] && ms[j] == [false] + b[j - |a|];
    } else {
      assert ms[i] == [true] + a[i] && ms[j] == [false] + b[j - |a|];
      assert ms[i][0] != ms[j][0];
    }
  }

  lemma {:induction false} ChooseAbove(m: nat, k: nat)
    requires k > m
    ensures Choose(m, k) == 0
  {
    if m > 0 {
      ChooseAbove(m - 1, k - 1);
      ChooseAbove(m - 1, k);
    }
  }

  lemma {:induction false} SumChoosePascal(m: nat, upto: nat)
    ensures SumChoose(m + 1, upto + 1) == SumChoose(m, upto + 1) + SumChoose(m, upto)
  {
    if upto > 0 {
      SumChoosePascal(m, upto - 1);
    }
  }

  /** C(n, 0) + ... + C(n, n) == 2^n. */
  lemma {:induction false} SumChooseAll(n: nat)
    ensures SumChoose(n, n + 1) == Pow2(n)
  {
    if n > 0 {
      SumChooseAll(n - 1);
      SumChoosePascal(n - 1, n);
      ChooseAbove(n - 1, n);
    }
  }

  /** The masks of length n marking fewer than `upto` positions: how many, their length and count. */
  lemma {:induction false} MaskPrefixShape(n: nat, upto: nat)
    ensures |MaskPrefix(n, upto)| == SumChoose(n, upto)
    ensures forall i :: 0 <= i < |MaskPrefix(n, upto)| ==>
      |MaskPrefix(n, upto)[i]| == n && Ones(MaskPrefix(n, upto)[i]) < upto
  {
    if upto > 0 {
      var mp := MaskPrefix(n, upto);
      var a := MaskPrefix(n, upto - 1);
      var b := Masks(n, upto - 1);
      assert mp == a + b;
      MaskPrefixShape(n, upto - 1);
      MasksShape(n, upto - 1);
      MasksCount(n, upto - 1);
      forall i | 0 <= i < |mp| ensures |mp[i]| == n && Ones(mp[i]) < upto {
        if i < |a| {
          assert mp[i] == a[i];
        } else {
          assert mp[i] == b[i - |a|];
        }
      }
    }
  }

  /** Along the mask sweep the number of marked positions never decreases. */
  lemma {:induction false} MaskPrefixOrdered(n: nat, upto: nat)
    ensures forall p, q :: 0 <= p <= q < |MaskPrefix(n, upto)| ==>
      Ones(MaskPrefix(n, upto)[p]) <= Ones(MaskPrefix(n, upto)[q])
  {
    if upto > 0 {
      var mp := MaskPrefix(n, upto);
      var a := MaskPrefix(n, upto - 1);
      var b := Masks(n, upto - 1);
      assert mp == a + b;
      MaskPrefixOrdered(n, upto - 1);
      MaskPrefixShape(n, upto - 1);
      MasksShape(n, upto - 1);
      OrderedByOnes(a, b, upto - 1);
    }
  }

  /** Ordered masks below k ones followed by masks of exactly k ones stay ordered. */
  lemma OrderedByOnes(a: seq<seq<bool>>, b: seq<seq<bool>>, k: nat)
    requires forall p, q :: 0 <= p <= q < |a| ==> Ones(a[p]) <= Ones(a[q])
    requires forall i :: 0 <= i < |a| ==> Ones(a[i]) < k
    requires forall i :: 0 <= i < |b| ==> Ones(b[i]) == k
    ensures forall p, q :: 0 <= p <= q < |a + b| ==> Ones((a + b)[p]) <= Ones((a + b)[q])
  {
    var mp := a + b;
    forall p, q | 0 <= p <= q < |mp| ensures Ones(mp[p]) <= Ones(mp[q]) {
      if q < |a| {
        assert mp[p] == a[p] && mp[q] == a[q];
      } else if p >= |a| {
        assert mp[p] == b[p - |a|] && mp[q] == b[q - |a|];
      } else {
        assert mp[p] == a[p] && mp[q] == b[q - |a|];
      }
    }
  }

  /** The mask sweep never repeats a mask. */
  lemma {:induction false} MaskPrefixDistinct(n: nat, upto: nat)
    ensures Distinct(MaskPrefix(n, upto))
  {
    if upto > 0 {
      var mp := MaskPrefix(n, upto);
      var a := MaskPrefix(n, upto - 1);
      var b := Masks(n, upto - 1);
      assert mp == a + b;
      MaskPrefixDistinct(n, upto - 1);
      MaskPrefixShape(n, upto - 1);
      MasksShape(n, upto - 1);
      MasksDistinct(n, upto - 1);
      DistinctByOnes(a, b, upto - 1);
    }
  }

  /** Distinct masks below k ones followed by distinct masks of exactly k ones are all distinct. */
  lemma DistinctByOnes(a: seq<seq<bool>>, b: seq<seq<bool>>, k: nat)
    requires Distinct(a) && Distinct(b)
    requires forall i :: 0 <= i < |a| ==> Ones(a[i]) < k
    requires forall i :: 0 <= i < |b| ==> Ones(b[i]) == k
    ensures Distinct(a + b)
  {
    var mp := a + b;
    forall p, q | 0 <= p < q < |mp| ensures mp[p] != mp[q] {
      if q < |a| {
        assert mp[p] == a[p] && mp[q] == a[q];
      } else if p >= |a| {
        assert mp[p] == b[p - |a|] && mp[q] == b[q - |a|];
      } else {
        assert mp[p] == a[p] && mp[q] == b[q - |a|];
      }
    }
  }

  /** Every mask of length n occurs in the full mask sweep. */
  lemma MaskPrefixComplete(mask: seq<bool>, upto: nat)
    requires Ones(mask) < upto
    ensures mask in MaskPrefix(|mask|, upto)
  {
    if Ones(mask) == upto - 1 {
      MasksComplete(mask, upto - 1);
    } else {
      MaskPrefixComplete(mask, upto - 1);
    }
  }

  // ---------------------------------------------------------------------------
  // From position tuples to masks

  lemma MaskOfPrepend(c: seq<nat>, lo: nat, n: nat)
    requires lo < n
    requires forall p :: p in c ==> lo < p
    ensures MaskOf([lo] + c, lo, n) == [true] + MaskOf(c, lo + 1, n)
  {
    var l := MaskOf([lo] + c, lo, n);
    var r := [true] + MaskOf(c, lo + 1, n);
    forall j | 0 <= j < n - lo ensures l[j] == r[j] {
      if j > 0 {
        assert lo + j in [lo] + c <==> lo + j in c;
      }
    }
  }

  lemma MaskOfSkip(c: seq<nat>, lo: nat, n: nat)
    requires lo < n
    requires forall p :: p in c ==> lo < p
    ensures MaskOf(c, lo, n) == [false] + MaskOf(c, lo + 1, n)
  {
    var l := MaskOf(c, lo, n);
    var r := [false] + MaskOf(c, lo + 1, n);
    forall j | 0 <= j < n - lo ensures l[j] == r[j] {
    }
  }

  /** A tuple of the group that takes lo: its mask marks lo, then the mask of its tail. */
  lemma CombinationMaskHead(lo: nat, n: nat, k: nat, i: nat)
    requires k > 0 && lo < n
    requires i < |Combinations(lo + 1, n, k - 1)|
    ensures i < |Combinations(lo, n, k)|
    ensures MaskOf(Combinations(lo, n, k)[i], lo, n) == [true] + MaskOf(Combinations(lo + 1, n, k - 1)[i], lo + 1, n)
  {
    var first := Combinations(lo + 1, n, k - 1);
    var pf := Prepend(lo, first);
    assert Combinations(lo, n, k) == pf + Combinations(lo + 1, n, k);
    var c := first[i];
    CombinationAbove(lo + 1, n, k - 1, c);
    assert Combinations(lo, n, k)[i] == pf[i] == [lo] + c;
    MaskOfPrepend(c, lo, n);
  }

  /** A tuple of the group that skips lo: its mask leaves lo unmarked. */
  lemma CombinationMaskTail(lo: nat, n: nat, k: nat, i: nat)
    requires k > 0 && lo < n
    requires i < |Combinations(lo + 1, n, k)|
    ensures |Combinations(lo + 1, n, k - 1)| + i < |Combinations(lo, n, k)|
    ensures MaskOf(Combinations(lo, n, k)[|Combinations(lo + 1, n, k - 1)| + i], lo, n) ==
      [false] + MaskOf(Combinations(lo + 1, n, k)[i], lo + 1, n)
  {
    var pf := Prepend(lo, Combinations(lo + 1, n, k - 1));
    var rest := Combinations(lo + 1, n, k);
    assert Combinations(lo, n, k) == pf + rest;
    var c := rest[i];
    CombinationAbove(lo + 1, n, k, c);
    assert Combinations(lo, n, k)[|pf| + i] == c;
    MaskOfSkip(c, lo, n);
  }

  /** The masks of a group split like the group: those taking lo, then those skipping it. */
  lemma MaskListSplit(lo: nat, n: nat, k: nat)
    requires k > 0 && lo < n
    ensures MaskList(Combinations(lo, n, k), lo, n) ==
      Cons(true, MaskList(Combinations(lo + 1, n, k - 1), lo + 1, n)) +
      Cons(false, MaskList(Combinations(lo + 1, n, k), lo + 1, n))
  {
    var first := Combinations(lo + 1, n, k - 1);
    var rest := Combinations(lo + 1, n, k);
    var ml := MaskList(Combinations(lo, n, k), lo, n);
    var a := MaskList(first, lo + 1, n);
    var b := MaskList(rest, lo + 1, n);
    var target := Cons(true, a) + Cons(false, b);
    assert |Combinations(lo, n, k)| == |first| + |rest|;
    forall i | 0 <= i < |ml| ensures ml[i] == target[i] {
      if i < |first| {
        CombinationMaskHead(lo, n, k, i);
      } else {
        CombinationMaskTail(lo, n, k, i - |first|);
      }
    }
  }

  /** The masks of `Combinations(lo, n, k)` are exactly `Masks(n - lo, k)`, in the same order. */
  lemma {:induction false} CombinationMasks(lo: nat, n: nat, k: nat)
    requires lo <= n
    ensures MaskList(Combinations(lo, n, k), lo, n) == Masks(n - lo, k)
    decreases n - lo
  {
    if k == 0 {
      assert Combinations(lo, n, k) == [[]];
      assert MaskOf([], lo, n) == Falses(n - lo);
      assert MaskList([[]], lo, n) == [MaskOf([], lo, n)];
    } else if lo < n {
      CombinationMasks(lo + 1, n, k - 1);
      CombinationMasks(lo + 1, n, k);
      MaskListSplit(lo, n, k);
    }
  }

  /** One group of the sweep is the rendering of the masks marking k positions. */
  lemma SortedGroupMasks(iuse: seq<string>, inverted: bool, k: nat)
    ensures forall i :: 0 <= i < |Masks(|iuse|, k)| ==> |Masks(|iuse|, k)[i]| == |iuse|
    ensures SortedGroup(Combinations(0, |iuse|, k), iuse, inverted) == RenderAll(Masks(|iuse|, k), iuse, inverted)
  {
    var n := |iuse|;
    var cs := Combinations(0, n, k);
    CombinationMasks(0, n, k);
    MasksShape(n, k);
    var g := SortedGroup(cs, iuse, inverted);
    var rb := RenderAll(Masks(n, k), iuse, inverted);
    assert |g| == |rb| by {
      assert |MaskList(cs, 0, n)| == |cs|;
    }
    forall i | 0 <= i < |g| ensures g[i] == rb[i] {
      assert MaskList(cs, 0, n)[i] == MaskOf(cs[i], 0, n);
    }
  }

  /** Rendering distributes over concatenation. */
  lemma RenderAllConcat(a: seq<seq<bool>>, b: seq<seq<bool>>, iuse: seq<string>, inverted: bool)
    requires forall i :: 0 <= i < |a| ==> |a[i]| == |iuse|
    requires forall i :: 0 <= i < |b| ==> |b[i]| == |iuse|
    ensures forall i :: 0 <= i < |a + b| ==> |(a + b)[i]| == |iuse|
    ensures RenderAll(a + b, iuse, inverted) == RenderAll(a, iuse, inverted) + RenderAll(b, iuse, inverted)
  {
    assert forall i :: 0 <= i < |a + b| ==> (a + b)[i] == if i < |a| then a[i] else b[i - |a|];
    var whole := RenderAll(a + b, iuse, inverted);
    var parts := RenderAll(a, iuse, inverted) + RenderAll(b, iuse, inverted);
    forall i | 0 <= i < |whole| ensures whole[i] == parts[i] {
      if i < |a| {
        assert (a + b)[i] == a[i];
      } else {
        assert (a + b)[i] == b[i - |a|];
      }
    }
  }

  lemma {:induction false} SortedPrefixMasks(iuse: seq<string>, inverted: bool, upto: nat)
    ensures forall i :: 0 <= i < |MaskPrefix(|iuse|, upto)| ==> |MaskPrefix(|iuse|, upto)[i]| == |iuse|
    ensures SortedPrefix(iuse, inverted, upto) == RenderAll(MaskPrefix(|iuse|, upto), iuse, inverted)
  {
    var n := |iuse|;
    MaskPrefixShape(n, upto);
    if upto > 0 {
      SortedPrefixMasks(iuse, inverted, upto - 1);
      MaskPrefixShape(n, upto - 1);
      SortedGroupMasks(iuse, inverted, upto - 1);
      RenderAllConcat(MaskPrefix(n, upto - 1), Masks(n, upto - 1), iuse, inverted);
    }
  }

  // ---------------------------------------------------------------------------
  // Counting enabled flags

  lemma {:induction false} EnabledCountRender(mask: seq<bool>, iuse: seq<string>, inverted: bool)
    requires |mask| == |iuse|
    ensures EnabledCount(Render(mask, iuse, inverted), iuse) == if inverted then |mask| - Ones(mask) else Ones(mask)
  {
    OnesBound(mask);
    if mask != [] {
      var r := Render(mask, iuse, inverted);
      assert r[1..] == Render(mask[1..], iuse[1..], inverted);
      EnabledCountRender(mask[1..], iuse[1..], inverted);
      OnesBound(mask[1..]);
      assert |"-" + iuse[0]| == |iuse[0]| + 1;
    }
  }

  /** The mask that marks the flags an assignment enables (or disables, when inverted). */
  function MarkMask(flags: seq<string>, iuse: seq<string>, inverted: bool): seq<bool>
    requires |flags| == |iuse|
  {
    seq(|iuse|, i requires 0 <= i < |iuse| => (flags[i] == iuse[i]) != inverted)
  }

  lemma RenderMarkMask(flags: seq<string>, iuse: seq<string>, inverted: bool)
    requires IsAssignment(flags, iuse)
    ensures Render(MarkMask(flags, iuse, inverted), iuse, inverted) == flags
  {
    forall i | 0 <= i < |iuse| ensures Render(MarkMask(flags, iuse, inverted), iuse, inverted)[i] == flags[i] {
      if flags[i] != iuse[i] {
        assert flags[i] == "-" + iuse[i];
      }
    }
  }

  // ---------------------------------------------------------------------------
  // Properties of the sorted sweep

  /** The sweep yields 2^n assignments of `iuse`, all distinct. */
  lemma SortedSweepFacts(iuse: seq<string>, inverted: bool)
    ensures |SortedSweep(iuse, inverted)| == Pow2(|iuse|)
    ensures forall i :: 0 <= i < |SortedSweep(iuse, inverted)| ==> IsAssignment(SortedSweep(iuse, inverted)[i], iuse)
    ensures Distinct(SortedSweep(iuse, inverted))
  {
    var n := |iuse|;
    var ms := MaskPrefix(n, n + 1);
    SortedPrefixMasks(iuse, inverted, n + 1);
    MaskPrefixShape(n, n + 1);
    MaskPrefixDistinct(n, n + 1);
    SumChooseAll(n);
    var sweep := SortedSweep(iuse, inverted);
    forall i | 0 <= i < |sweep| ensures IsAssignment(sweep[i], iuse) {
      RenderIsAssignment(ms[i], iuse, inverted);
    }
    forall p, q | 0 <= p < q < |sweep| ensures sweep[p] != sweep[q] {
      if sweep[p] == sweep[q] {
        RenderInjective(ms[p], ms[q], iuse, inverted);
      }
    }
  }

  lemma SortedSweepMember(iuse: seq<string>, inverted: bool, flags: seq<string>)
    requires flags in SortedSweep(iuse, inverted)
    ensures IsAssignment(flags, iuse)
  {
    SortedSweepFacts(iuse, inverted);
  }

  /** Entry p of the sweep, inside group k, is entry p - lo of that group. */
  lemma SweepInGroup(iuse: seq<string>, inverted: bool, k: nat, p: nat)
    requires k <= |iuse|
    requires |SortedPrefix(iuse, inverted, k)| <= p < |SortedPrefix(iuse, inverted, k + 1)|
    ensures p < |SortedSweep(iuse, inverted)|
    ensures p - |SortedPrefix(iuse, inverted, k)| < |SortedGroup(Combinations(0, |iuse|, k), iuse, inverted)|
    ensures SortedSweep(iuse, inverted)[p] ==
      SortedGroup(Combinations(0, |iuse|, k), iuse, inverted)[p - |SortedPrefix(iuse, inverted, k)|]
  {
    SortedPrefixIsPrefix(iuse, inverted, k + 1, |iuse| + 1);
    var pre := SortedPrefix(iuse, inverted, k + 1);
    var g := SortedGroup(Combinations(0, |iuse|, k), iuse, inverted);
    assert pre == SortedPrefix(iuse, inverted, k) + g;
    assert SortedSweep(iuse, inverted)[p] == pre[p];
  }

  /** Entry j of group k is the rendering of a mask marking k positions. */
  lemma GroupEntry(iuse: seq<string>, inverted: bool, k: nat, j: nat)
    requires j < |SortedGroup(Combinations(0, |iuse|, k), iuse, inverted)|
    ensures j < |Masks(|iuse|, k)|
    ensures |Masks(|iuse|, k)[j]| == |iuse| && Ones(Masks(|iuse|, k)[j]) == k
    ensures SortedGroup(Combinations(0, |iuse|, k), iuse, inverted)[j] == Render(Masks(|iuse|, k)[j], iuse, inverted)
  {
    SortedGroupMasks(iuse, inverted, k);
    MasksShape(|iuse|, k);
    var b := Masks(|iuse|, k);
    assert RenderAll(b, iuse, inverted)[j] == Render(b[j], iuse, inverted);
  }

  /** An entry of group k marks exactly k flags, so enables k flags (n - k when inverted). */
  lemma GroupEntryCount(iuse: seq<string>, inverted: bool, k: nat, j: nat)
    requires j < |SortedGroup(Combinations(0, |iuse|, k), iuse, inverted)|
    ensures |SortedGroup(Combinations(0, |iuse|, k), iuse, inverted)[j]| == |iuse|
    ensures EnabledCount(SortedGroup(Combinations(0, |iuse|, k), iuse, inverted)[j], iuse) ==
      if inverted then |iuse| - k else k
  {
    GroupEntry(iuse, inverted, k, j);
    RenderedCount(SortedGroup(Combinations(0, |iuse|, k), iuse, inverted)[j], Masks(|iuse|, k)[j], iuse, inverted, k);
  }

  /** A list rendered from a mask marking k flags enables k of them (n - k when inverted). */
  lemma RenderedCount(flags: seq<string>, mask: seq<bool>, iuse: seq<string>, inverted: bool, k: nat)
    requires |mask| == |iuse| && Ones(mask) == k && flags == Render(mask, iuse, inverted)
    ensures |flags| == |iuse|
    ensures EnabledCount(flags, iuse) == if inverted then |iuse| - k else k
  {
    EnabledCountRender(mask, iuse, inverted);
  }

  /**
   * Group k of the sweep: it follows groups 0 .. k-1, holds C(n, k) assignments,
   * and each of them marks exactly k flags, so enables k flags (n - k when inverted).
   */
  lemma SortedSweepGroup(iuse: seq<string>, inverted: bool, k: nat)
    requires k <= |iuse|
    ensures SortedPrefix(iuse, inverted, k + 1) <= SortedSweep(iuse, inverted)
    ensures |SortedPrefix(iuse, inverted, k + 1)| == |SortedPrefix(iuse, inverted, k)| + Choose(|iuse|, k)
    ensures forall p :: |SortedPrefix(iuse, inverted, k)| <= p < |SortedPrefix(iuse, inverted, k + 1)| ==>
      |SortedSweep(iuse, inverted)[p]| == |iuse| &&
      EnabledCount(SortedSweep(iuse, inverted)[p], iuse) == if inverted then |iuse| - k else k
  {
    SortedPrefixIsPrefix(iuse, inverted, k + 1, |iuse| + 1);
    GroupLength(iuse, inverted, k);
    GroupCounts(iuse, inverted, k);
  }

  /** Group k holds C(n, k) lists. */
  lemma GroupLength(iuse: seq<string>, inverted: bool, k: nat)
    ensures |SortedPrefix(iuse, inverted, k + 1)| == |SortedPrefix(iuse, inverted, k)| + Choose(|iuse|, k)
  {
    var g := SortedGroup(Combinations(0, |iuse|, k), iuse, inverted);
    assert SortedPrefix(iuse, inverted, k + 1) == SortedPrefix(iuse, inverted, k) + g;
    SortedGroupMasks(iuse, inverted, k);
    assert |g| == |RenderAll(Masks(|iuse|, k), iuse, inverted)| == |Masks(|iuse|, k)|;
    MasksCount(|iuse|, k);
  }

  /** Every list of group k enables k flags (n - k when inverted). */
  lemma GroupCounts(iuse: seq<string>, inverted: bool, k: nat)
    requires k <= |iuse|
    ensures |SortedPrefix(iuse, inverted, k + 1)| <= |SortedSweep(iuse, inverted)|
    ensures forall p :: |SortedPrefix(iuse, inverted, k)| <= p < |SortedPrefix(iuse, inverted, k + 1)| ==>
      |SortedSweep(iuse, inverted)[p]| == |iuse| &&
      EnabledCount(SortedSweep(iuse, inverted)[p], iuse) == if inverted then |iuse| - k else k
  {
    SortedPrefixIsPrefix(iuse, inverted, k + 1, |iuse| + 1);
    forall p | |SortedPrefix(iuse, inverted, k)| <= p < |SortedPrefix(iuse, inverted, k + 1)| {
      SortedGroupEntry(iuse, inverted, k, p);
    }
  }

  /** An entry of the sweep inside group k enables k flags (n - k when inverted). */
  lemma SortedGroupEntry(iuse: seq<string>, inverted: bool, k: nat, p: nat)
    requires k <= |iuse|
    requires |SortedPrefix(iuse, inverted, k)| <= p < |SortedPrefix(iuse, inverted, k + 1)|
    ensures p < |SortedSweep(iuse, inverted)|
    ensures |SortedSweep(iuse, inverted)[p]| == |iuse|
    ensures EnabledCount(SortedSweep(iuse, inverted)[p], iuse) == if inverted then |iuse| - k else k
  {
    SweepInGroup(iuse, inverted, k, p);
    GroupEntryCount(iuse, inverted, k, p - |SortedPrefix(iuse, inverted, k)|);
  }

  lemma {:induction false} SortedPrefixIsPrefix(iuse: seq<string>, inverted: bool, a: nat, b: nat)
    requires a <= b
    ensures SortedPrefix(iuse, inverted, a) <= SortedPrefix(iuse, inverted, b)
    decreases b
  {
    if a < b {
      SortedPrefixIsPrefix(iuse, inverted, a, b - 1);
    }
  }

  /**
   * The sweep is ordered by the number of enabled flags: non-decreasing,
   * or non-increasing when inverted.
   */
  lemma SortedSweepOrdered(iuse: seq<string>, inverted: bool, p: nat, q: nat)
    requires p <= q < |SortedSweep(iuse, inverted)|
    ensures |SortedSweep(iuse, inverted)[p]| == |SortedSweep(iuse, inverted)[q]| == |iuse|
    ensures var ep := EnabledCount(SortedSweep(iuse, inverted)[p], iuse);
            var eq := EnabledCount(SortedSweep(iuse, inverted)[q], iuse);
            if inverted then eq <= ep else ep <= eq
  {
    var n := |iuse|;
    var ms := MaskPrefix(n, n + 1);
    SortedPrefixMasks(iuse, inverted, n + 1);
    MaskPrefixShape(n, n + 1);
    MaskPrefixOrdered(n, n + 1);
    EnabledCountRender(ms[p], iuse, inverted);
    EnabledCountRender(ms[q], iuse, inverted);
    assert Ones(ms[p]) <= Ones(ms[q]);
  }

  /** Every assignment of `iuse` is yielded by the sweep. */
  lemma SortedSweepComplete(flags: seq<string>, iuse: seq<string>, inverted: bool)
    requires IsAssignment(flags, iuse)
    ensures flags in SortedSweep(iuse, inverted)
  {
    var n := |iuse|;
    var mask := MarkMask(flags, iuse, inverted);
    OnesBound(mask);
    MaskPrefixComplete(mask, n + 1);
    SortedPrefixMasks(iuse, inverted, n + 1);
    var ms := MaskPrefix(n, n + 1);
    var i :| 0 <= i < |ms| && ms[i] == mask;
    RenderMarkMask(flags, iuse, inverted);
    assert SortedSweep(iuse, inverted)[i] == flags;
  }

  // ---------------------------------------------------------------------------
  // The split sweep

  /** `[x + y for y in ys]` */
  function Row(x: seq<string>, ys: seq<seq<string>>): seq<seq<string>>
  {
    seq(|ys|, j requires 0 <= j < |ys| => x + ys[j])
  }

  /** `[x + y for x in xs for y in ys]`: the outer list varies slowest. */
  function Product(xs: seq<seq<string>>, ys: seq<seq<string>>): seq<seq<string>>
  {
    if xs == [] then [] else Row(xs[0], ys) + Product(xs[1..], ys)
  }

  /** Everything `yield_use_flags_toggles_sorted_split(sortedPart, unsortedPart, inverted)` yields. */
  function SplitSweep(sortedPart: seq<string>, unsortedPart: seq<string>, inverted: bool): seq<seq<string>>
  {
    Product(SortedSweep(sortedPart, inverted), SortedSweep(unsortedPart, inverted))
  }

  /**
   * yield_use_flags_toggles_sorted_split: for every assignment of the first
   * part, restart the sweep of the second part and yield the two glued together.
   */
  method YieldUseFlagsTogglesSortedSplit(iuseSorted: seq<string>, iuseUnsorted: seq<string>, inverted: bool)
    returns (sweep: seq<seq<string>>)
    ensures sweep == SplitSweep(iuseSorted, iuseUnsorted, inverted)
  {
    var xs := YieldUseFlagsTogglesSorted(iuseSorted, inverted);
    sweep := [];
    for i := 0 to |xs|
      invariant sweep == Product(xs[..i], SortedSweep(iuseUnsorted, inverted))
    {
      var ys := YieldUseFlagsTogglesSorted(iuseUnsorted, inverted);
      ghost var before := sweep;
      for j := 0 to |ys|
        invariant sweep == before + Row(xs[i], ys[..j])
      {
        RowSnoc(xs[i], ys, j);
        sweep := sweep + [xs[i] + ys[j]];
      }
      assert ys[..|ys|] == ys;
      ProductStep(xs, i, ys);
    }
    assert xs[..|xs|] == xs;
  }

  /** The row of the first j + 1 inner lists extends the row of the first j by one. */
  lemma RowSnoc(x: seq<string>, ys: seq<seq<string>>, j: nat)
    requires j < |ys|
    ensures Row(x, ys[..j + 1]) == Row(x, ys[..j]) + [x + ys[j]]
  {
  }

  /** The product of the first i + 1 outer lists extends that of the first i by a row. */
  lemma ProductStep(xs: seq<seq<string>>, i: nat, ys: seq<seq<string>>)
    requires i < |xs|
    ensures Product(xs[..i + 1], ys) == Product(xs[..i], ys) + Row(xs[i], ys)
  {
    assert xs[..i + 1] == xs[..i] + [xs[i]];
    ProductSnoc(xs[..i], xs[i], ys);
  }

  /** Appending an outer list appends its row. */
  lemma {:induction false} ProductSnoc(a: seq<seq<string>>, x: seq<string>, ys: seq<seq<string>>)
    ensures Product(a + [x], ys) == Product(a, ys) + Row(x, ys)
  {
    if a == [] {
      assert [x][1..] == [];
    } else {
      assert (a + [x])[1..] == a[1..] + [x];
      ProductSnoc(a[1..], x, ys);
    }
  }

  /** Element i * |ys| + j of the product is xs[i] + ys[j]. */
  lemma {:induction false} ProductAt(xs: seq<seq<string>>, ys: seq<seq<string>>, i: nat, j: nat)
    requires i < |xs| && j < |ys|
    ensures |Product(xs, ys)| == |xs| * |ys|
    ensures i * |ys| + j < |Product(xs, ys)|
    ensures Product(xs, ys)[i * |ys| + j] == xs[i] + ys[j]
  {
    ProductLength(xs, ys);
    if i > 0 {
      ProductAt(xs[1..], ys, i - 1, j);
      assert i * |ys| + j == |ys| + ((i - 1) * |ys| + j);
    }
  }

  lemma {:induction false} ProductLength(xs: seq<seq<string>>, ys: seq<seq<string>>)
    ensures |Product(xs, ys)| == |xs| * |ys|
  {
    if xs != [] {
      ProductLength(xs[1..], ys);
      assert |xs| * |ys| == |ys| + (|xs| - 1) * |ys|;
    }
  }

  /** Every position of the product is some i * |ys| + j. */
  lemma {:induction false} ProductDecompose(xs: seq<seq<string>>, ys: seq<seq<string>>, p: nat)
    returns (i: nat, j: nat)
    requires p < |Product(xs, ys)|
    ensures i < |xs| && j < |ys| && p == i * |ys| + j
  {
    assert xs != [];
    if p < |ys| {
      i, j := 0, p;
    } else {
      var i', j' := ProductDecompose(xs[1..], ys, p - |ys|);
      i, j := i' + 1, j';
      assert i * |ys| == |ys| + i' * |ys|;
    }
  }

  /** Two positions p <= q of the product, as (outer, inner) pairs in order. */
  lemma ProductPair(xs: seq<seq<string>>, ys: seq<seq<string>>, p: nat, q: nat)
    returns (i0: nat, j0: nat, i1: nat, j1: nat)
    requires p <= q < |Product(xs, ys)|
    ensures i0 < |xs| && i1 < |xs| && j0 < |ys| && j1 < |ys|
    ensures Product(xs, ys)[p] == xs[i0] + ys[j0] && Product(xs, ys)[q] == xs[i1] + ys[j1]
    ensures i0 < i1 || (i0 == i1 && j0 <= j1)
  {
    i0, j0 := ProductDecompose(xs, ys, p);
    i1, j1 := ProductDecompose(xs, ys, q);
    ProductAt(xs, ys, i0, j0);
    ProductAt(xs, ys, i1, j1);
    ProductOrder(i0, j0, i1, j1, |ys|);
  }

  lemma MulMonotone(a: nat, b: nat, c: nat)
    requires a <= b
    ensures a * c <= b * c
  {
    assert b * c == a * c + (b - a) * c;
  }

  /** Positions of the product are ordered as (outer index, inner index) pairs. */
  lemma ProductOrder(i0: nat, j0: nat, i1: nat, j1: nat, width: nat)
    requires j0 < width && j1 < width
    requires i0 * width + j0 <= i1 * width + j1
    ensures i0 < i1 || (i0 == i1 && j0 <= j1)
  {
    if i1 < i0 {
      MulMonotone(i1 + 1, i0, width);
      assert false;
    }
  }

  /**
   * The split sweep yields 2^|sortedPart| * 2^|unsortedPart| lists, each an
   * assignment of the first part followed by an assignment of the second.
   */
  lemma SplitSweepShape(sortedPart: seq<string>, unsortedPart: seq<string>, inverted: bool)
    ensures |SplitSweep(sortedPart, unsortedPart, inverted)| == Pow2(|sortedPart|) * Pow2(|unsortedPart|)
    ensures forall p :: 0 <= p < |SplitSweep(sortedPart, unsortedPart, inverted)| ==>
      |SplitSweep(sortedPart, unsortedPart, inverted)[p]| == |sortedPart| + |unsortedPart| &&
      IsAssignment(SplitSweep(sortedPart, unsortedPart, inverted)[p][..|sortedPart|], sortedPart) &&
      IsAssignment(SplitSweep(sortedPart, unsortedPart, inverted)[p][|sortedPart|..], unsortedPart)
  {
    var xs := SortedSweep(sortedPart, inverted);
    var ys := SortedSweep(unsortedPart, inverted);
    SortedSweepFacts(sortedPart, inverted);
    SortedSweepFacts(unsortedPart, inverted);
    ProductLength(xs, ys);
    var sweep := Product(xs, ys);
    forall p | 0 <= p < |sweep|
      ensures |sweep[p]| == |sortedPart| + |unsortedPart|
      ensures IsAssignment(sweep[p][..|sortedPart|], sortedPart) && IsAssignment(sweep[p][|sortedPart|..], unsortedPart)
    {
      var i, j := ProductDecompose(xs, ys, p);
      ProductAt(xs, ys, i, j);
      assert IsAssignment(xs[i], sortedPart) && IsAssignment(ys[j], unsortedPart);
      assert sweep[p][..|sortedPart|] == xs[i] && sweep[p][|sortedPart|..] == ys[j];
    }
  }

  /** Every assignment of the first part followed by one of the second is yielded. */
  lemma SplitSweepComplete(sortedPart: seq<string>, unsortedPart: seq<string>, inverted: bool, s: seq<string>, u: seq<string>)
    requires IsAssignment(s, sortedPart) && IsAssignment(u, unsortedPart)
    ensures s + u in SplitSweep(sortedPart, unsortedPart, inverted)
  {
    SortedSweepComplete(s, sortedPart, inverted);
    SortedSweepComplete(u, unsortedPart, inverted);
    ProductComplete(SortedSweep(sortedPart, inverted), SortedSweep(unsortedPart, inverted), s, u);
  }

  /** Every x + y with x from xs and y from ys is in the product. */
  lemma ProductComplete(xs: seq<seq<string>>, ys: seq<seq<string>>, x: seq<string>, y: seq<string>)
    requires x in xs && y in ys
    ensures x + y in Product(xs, ys)
  {
    var i :| 0 <= i < |xs| && xs[i] == x;
    var j :| 0 <= j < |ys| && ys[j] == y;
    ProductAt(xs, ys, i, j);
  }
}
