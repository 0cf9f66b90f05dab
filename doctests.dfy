/**
 * The documented examples of pkg_testing_tools/use.py, stated on the model.
 * Where an example consults portage's REQUIRED_USE check, the evaluator is
 * the one that constraint means on these flags: "flag1" holds when the list
 * holds the token flag1, "!flag1" when it does not.
 *
 * Also the sparse-search behaviour on split order: an assignment reached
 * by the split sweep and again by decoding an index is kept twice.
 */
module Doctests {
  import opened Wrappers
  import opened Toggles
  import opened Sweep
  import opened UseCombinations

  /** A list without any "single_target" flag goes entirely to the first part. */
  lemma {:induction false} WithoutSingleTarget(iuse: seq<string>)
    requires forall i :: 0 <= i < |iuse| ==> !Contains(iuse[i], SingleTargetMarker)
    ensures NonSingleTarget(iuse) == iuse && SingleTarget(iuse) == []
  {
    if iuse != [] {
      WithoutSingleTarget(iuse[1..]);
      assert iuse == [iuse[0]] + iuse[1..];
    }
  }

  /** The sorted sweep starts with the all-unmarked assignment. */
  lemma SweepHead(iuse: seq<string>, inverted: bool)
    ensures |SortedSweep(iuse, inverted)| >= 1
    ensures SortedSweep(iuse, inverted)[0] == Render(Falses(|iuse|), iuse, inverted)
  {
    SortedPrefixIsPrefix(iuse, inverted, 1, |iuse| + 1);
    assert Combinations(0, |iuse|, 0) == [[]];
    assert MaskOf([], 0, |iuse|) == Falses(|iuse|);
    assert SortedPrefix(iuse, inverted, 1) == [Render(Falses(|iuse|), iuse, inverted)];
  }

  /** A flag name shorter than "single_target" cannot contain it. */
  lemma ShortFlagsUnmarked(iuse: seq<string>)
    requires forall i :: 0 <= i < |iuse| ==> |iuse[i]| < |SingleTargetMarker|
    ensures forall i :: 0 <= i < |iuse| ==> !Contains(iuse[i], SingleTargetMarker)
  {
  }

  /** With no single_target flag the split sweep is the sorted sweep itself. */
  lemma NoSingleTarget(iuse: seq<string>, inverted: bool)
    requires forall i :: 0 <= i < |iuse| ==> !Contains(iuse[i], SingleTargetMarker)
    ensures NonSingleTarget(iuse) == iuse && SingleTarget(iuse) == []
    ensures |ExtremalCandidates(iuse, inverted)| >= 1
    ensures ExtremalCandidates(iuse, inverted)[0] == SortedSweep(iuse, inverted)[0]
  {
    WithoutSingleTarget(iuse);
    var xs := SortedSweep(iuse, inverted);
    var ys := SortedSweep([], inverted);
    SweepHead(iuse, inverted);
    SweepHead([], inverted);
    assert ys[0] == [];
    ProductAt(xs, ys, 0, 0);
    assert xs[0] + ys[0] == xs[0];
  }

  /** The all-unmarked assignment of three flags disables all of them. */
  lemma RenderOff()
    ensures Render(Falses(3), ["flag1", "flag2", "flag3"], false) == ["-flag1", "-flag2", "-flag3"]
  {
    assert Falses(3) == [false, false, false];
    var first := Render([false, false, false], ["flag1", "flag2", "flag3"], false);
    assert first[0] == "-flag1" && first[1] == "-flag2" && first[2] == "-flag3";
  }

  /** ["-flag1", "-flag2", "-flag3"] meets "!flag1". */
  lemma FirstSat()
    ensures var sat := (c: string, f: seq<string>) => "flag1" !in f;
      sat("!flag1", ["-flag1", "-flag2", "-flag3"])
  {
    var f: seq<string> := ["-flag1", "-flag2", "-flag3"];
    assert f[0] != "flag1" && f[1] != "flag1" && f[2] != "flag1";
  }

  /**
   * get_use_combinations(["flag1", "flag2", "flag3"], ["!flag1"], 1, True, False):
   * the sparse entry is the all-disabled list.
   */
  lemma SparseExample()
    ensures Extremal(["flag1", "flag2", "flag3"], "!flag1", (c: string, f: seq<string>) => "flag1" !in f, true, false)
      == [["-flag1", "-flag2", "-flag3"]]
  {
    var iuse := ["flag1", "flag2", "flag3"];
    var sat := (c: string, f: seq<string>) => "flag1" !in f;
    ShortFlagsUnmarked(iuse);
    NoSingleTarget(iuse, false);
    SweepHead(iuse, false);
    RenderOff();
    FirstSat();
    var cands := ExtremalCandidates(iuse, false);
    assert cands[0] == ["-flag1", "-flag2", "-flag3"];
    assert FirstQualifying(cands, [], "!flag1", sat) == Some(0);
  }

  /** With no flags the sweep yields the one empty list. */
  lemma EmptySweep(inverted: bool)
    ensures SortedSweep([], inverted) == [[]]
  {
    assert Combinations(0, 0, 0) == [[]];
    assert SortedPrefix([], inverted, 1) == [Render(MaskOf([], 0, 0), [], inverted)];
    assert Render(MaskOf([], 0, 0), [], inverted) == [];
  }

  /** The first two dense candidates of three flags: all enabled, then flag1 disabled. */
  lemma DenseCandidates()
    ensures |ExtremalCandidates(["flag1", "flag2", "flag3"], true)| >= 2
    ensures ExtremalCandidates(["flag1", "flag2", "flag3"], true)[0] == ["flag1", "flag2", "flag3"]
    ensures ExtremalCandidates(["flag1", "flag2", "flag3"], true)[1] == ["-flag1", "flag2", "flag3"]
  {
    var iuse := ["flag1", "flag2", "flag3"];
    ShortFlagsUnmarked(iuse);
    NoSingleTarget(iuse, true);
    var xs := SortedSweep(iuse, true);
    var ys := SortedSweep([], true);
    SweepHead(iuse, true);
    EmptySweep(true);
    SecondDense();
    RenderOn();
    ProductAt(xs, ys, 0, 0);
    ProductAt(xs, ys, 1, 0);
    assert xs[0] + ys[0] == xs[0] && xs[1] + ys[0] == xs[1];
  }

  /**
   * get_use_combinations(["flag1", "flag2", "flag3"], ["!flag1"], 1, False, True):
   * the dense entry enables every flag but flag1.
   */
  lemma DenseExample()
    ensures Extremal(["flag1", "flag2", "flag3"], "!flag1", (c: string, f: seq<string>) => "flag1" !in f, false, true)
      == [["-flag1", "flag2", "flag3"]]
  {
    var iuse := ["flag1", "flag2", "flag3"];
    var sat := (c: string, f: seq<string>) => "flag1" !in f;
    DenseCandidates();
    var cands := ExtremalCandidates(iuse, true);
    assert !sat("!flag1", cands[0]);
    assert sat("!flag1", cands[1]) by {
      var f := cands[1];
      assert f[0] != "flag1" && f[1] != "flag1" && f[2] != "flag1";
    }
    assert FirstQualifying(cands, [], "!flag1", sat) == Some(1);
  }

  /** Inverted, the all-unmarked assignment of three flags enables all of them. */
  lemma RenderOn()
    ensures Render(Falses(3), ["flag1", "flag2", "flag3"], true) == ["flag1", "flag2", "flag3"]
  {
    assert Falses(3) == [false, false, false];
  }

  /** The second assignment of the inverted sweep marks flag1 only, so disables it. */
  lemma SecondDense()
    ensures |SortedSweep(["flag1", "flag2", "flag3"], true)| >= 2
    ensures SortedSweep(["flag1", "flag2", "flag3"], true)[1] == ["-flag1", "flag2", "flag3"]
  {
    var iuse := ["flag1", "flag2", "flag3"];
    SweepSecond(iuse, true);
    assert MaskOf([0], 0, 3) == [true, false, false];
    var r := Render([true, false, false], iuse, true);
    assert r[0] == "-flag1" && r[1] == "flag2" && r[2] == "flag3";
  }

  /** The second entry of the sweep of at least one flag marks the first flag only. */
  lemma SweepSecond(iuse: seq<string>, inverted: bool)
    requires |iuse| >= 1
    ensures |SortedSweep(iuse, inverted)| >= 2
    ensures SortedSweep(iuse, inverted)[1] == Render(MaskOf([0], 0, |iuse|), iuse, inverted)
  {
    var n := |iuse|;
    SortedPrefixIsPrefix(iuse, inverted, 2, n + 1);
    assert Combinations(1, n, 0) == [[]];
    assert Combinations(0, n, 1)[0] == [0];
    var g := SortedGroup(Combinations(0, n, 1), iuse, inverted);
    assert |SortedPrefix(iuse, inverted, 1)| == 1;
    assert SortedPrefix(iuse, inverted, 2) == SortedPrefix(iuse, inverted, 1) + g;
    assert SortedPrefix(iuse, inverted, 2)[1] == g[0];
  }

  /** A decoded list of three flags holds flag1 exactly when the index is odd. */
  lemma FirstFlagEnabled(index: nat)
    ensures "flag1" in Toggle(index, ["flag1", "flag2", "flag3"], false) <==> index % 2 == 1
  {
    var iuse := ["flag1", "flag2", "flag3"];
    var t := Toggle(index, iuse, false);
    BitsAt(index, 3, 0);
    BitsAt(index, 3, 1);
    BitsAt(index, 3, 2);
    assert Pow2(0) == 1;
    assert t[1] != "flag1" && t[2] != "flag1";
    assert t[0] == "flag1" <==> index % 2 == 1;
  }

  /**
   * get_use_combinations(["flag1", "flag2", "flag3"], ["flag1"], 999): 8 <= 999,
   * so every index is decoded in order and the four with flag1 enabled are kept,
   * for any evaluator that accepts exactly the lists enabling flag1.
   */
  lemma ExhaustiveExample(sat: Evaluator)
    requires forall c: string, f: seq<string> :: sat(c, f) <==> "flag1" in f
    ensures Remaining(["flag1", "flag2", "flag3"], [], "flag1", sat, 8) ==
      [["flag1", "-flag2", "-flag3"], ["flag1", "flag2", "-flag3"], ["flag1", "-flag2", "flag3"], ["flag1", "flag2", "flag3"]]
  {
    var iuse := ["flag1", "flag2", "flag3"];
    ExhaustiveFirstHalf(sat);
    ToggleExampleFive();
    ToggleExampleSeven();
    FirstFlagEnabled(4);
    FirstFlagEnabled(5);
    FirstFlagEnabled(6);
    FirstFlagEnabled(7);
    RemainingSkip(iuse, [], "flag1", sat, 4);
    RemainingKeep(iuse, [], "flag1", sat, 5);
    RemainingSkip(iuse, [], "flag1", sat, 6);
    RemainingKeep(iuse, [], "flag1", sat, 7);
  }

  /** Indices 0 .. 3 contribute the decodings of 1 and 3. */
  lemma ExhaustiveFirstHalf(sat: Evaluator)
    requires forall c: string, f: seq<string> :: sat(c, f) <==> "flag1" in f
    ensures Remaining(["flag1", "flag2", "flag3"], [], "flag1", sat, 4) ==
      [["flag1", "-flag2", "-flag3"], ["flag1", "flag2", "-flag3"]]
  {
    var iuse := ["flag1", "flag2", "flag3"];
    ToggleExampleOne();
    ToggleExampleThree();
    FirstFlagEnabled(0);
    FirstFlagEnabled(1);
    FirstFlagEnabled(2);
    FirstFlagEnabled(3);
    RemainingSkip(iuse, [], "flag1", sat, 0);
    RemainingKeep(iuse, [], "flag1", sat, 1);
    RemainingSkip(iuse, [], "flag1", sat, 2);
    RemainingKeep(iuse, [], "flag1", sat, 3);
  }

  /** An index whose decoding is new and satisfies the constraint extends Remaining by it. */
  lemma RemainingKeep(iuse: seq<string>, found: seq<seq<string>>, constraint: string, satisfies: Evaluator, hi: nat)
    requires Toggle(hi, iuse, false) !in found && satisfies(constraint, Toggle(hi, iuse, false))
    ensures Remaining(iuse, found, constraint, satisfies, hi + 1) ==
      Remaining(iuse, found, constraint, satisfies, hi) + [Toggle(hi, iuse, false)]
  {
  }

  /** An index whose decoding fails the constraint leaves Remaining as it is. */
  lemma RemainingSkip(iuse: seq<string>, found: seq<seq<string>>, constraint: string, satisfies: Evaluator, hi: nat)
    requires !satisfies(constraint, Toggle(hi, iuse, false))
    ensures Remaining(iuse, found, constraint, satisfies, hi + 1) == Remaining(iuse, found, constraint, satisfies, hi)
  {
  }

  /** Only a_single_target carries the marker, so b goes first. */
  lemma SplitExampleTargets()
    ensures NonSingleTarget(["a_single_target", "b"]) == ["b"]
    ensures SingleTarget(["a_single_target", "b"]) == ["a_single_target"]
  {
    var marker := SingleTargetMarker;
    assert "a_single_target" == "a_" + marker;
    assert ("a_" + marker)[2..2 + |marker|] == marker;
    ContainsOffset("a_single_target", marker);
    assert OccursAt("a_single_target", marker, 2);
    assert !Contains("b", marker);
    var iuse := ["a_single_target", "b"];
    assert iuse[1..] == ["b"];
    assert ["b"][1..] == [];
  }

  /** The sweep of a single flag starts with that flag disabled. */
  lemma SingleFlagSweepHead(flag: string)
    ensures |SortedSweep([flag], false)| >= 1
    ensures SortedSweep([flag], false)[0] == ["-" + flag]
  {
    SweepHead([flag], false);
    assert Falses(1) == [false];
    assert Render([false], [flag], false)[0] == "-" + flag;
  }

  /** With flags a_single_target and b, the sparse sweep puts b first and starts all-disabled. */
  lemma SplitExampleCandidates()
    ensures NonSingleTarget(["a_single_target", "b"]) == ["b"]
    ensures SingleTarget(["a_single_target", "b"]) == ["a_single_target"]
    ensures |ExtremalCandidates(["a_single_target", "b"], false)| >= 1
    ensures ExtremalCandidates(["a_single_target", "b"], false)[0] == ["-b", "-a_single_target"]
  {
    SplitExampleTargets();
    SplitHead(["a_single_target", "b"], "b", "a_single_target");
    DisabledTokens();
  }

  /** The tokens of the two flags when disabled. */
  lemma DisabledTokens()
    ensures "-" + "b" == "-b" && "-" + "a_single_target" == "-a_single_target"
  {
    assert ("-" + "a_single_target")[1..] == "a_single_target";
  }

  /** With one flag on each side, the sparse sweep starts with both disabled, the first side first. */
  lemma SplitHead(iuse: seq<string>, first: string, second: string)
    requires NonSingleTarget(iuse) == [first] && SingleTarget(iuse) == [second]
    ensures |ExtremalCandidates(iuse, false)| >= 1
    ensures ExtremalCandidates(iuse, false)[0] == ["-" + first, "-" + second]
  {
    SingleFlagSweepHead(first);
    SingleFlagSweepHead(second);
    ProductAt(SortedSweep([first], false), SortedSweep([second], false), 0, 0);
    assert ["-" + first] + ["-" + second] == ["-" + first, "-" + second];
  }

  /** With a constraint every list meets, the sparse entry is the first candidate. */
  lemma SplitExampleExtremal()
    ensures Extremal(["a_single_target", "b"], "", (c: string, f: seq<string>) => true, true, false) == [["-b", "-a_single_target"]]
  {
    SplitExampleCandidates();
    var cands := ExtremalCandidates(["a_single_target", "b"], false);
    assert FirstQualifying(cands, [], "", (c: string, f: seq<string>) => true) == Some(0);
  }

  /** Index 0 decodes to both flags disabled, in the order of iuse. */
  lemma SplitExampleToggleZero()
    ensures Toggle(0, ["a_single_target", "b"], false) == ["-a_single_target", "-b"]
  {
    var t0 := Toggle(0, ["a_single_target", "b"], false);
    assert Bits(0, 2) == [false, false];
    assert t0[0] == "-a_single_target" && t0[1] == "-b";
  }

  /**
   * The list-equality check does not recognise an assignment met in split
   * order: with flags a_single_target and b and a constraint every list
   * satisfies, the sparse entry and the decoding of index 0 are the same
   * assignment in two orders, and exhaustive mode keeps both.
   */
  lemma SplitOrderKeptTwice()
    ensures var iuse := ["a_single_target", "b"];
      var satisfies := (c: string, f: seq<string>) => true;
      var extremal := Extremal(iuse, "", satisfies, true, false);
      var result := extremal + Remaining(iuse, extremal, "", satisfies, Pow2(|iuse|));
      |result| >= 2 && result[0] == ["-b", "-a_single_target"] && result[1] == ["-a_single_target", "-b"] &&
      multiset(result[0]) == multiset(result[1])
  {
    var iuse := ["a_single_target", "b"];
    var satisfies := (c: string, f: seq<string>) => true;
    SplitExampleExtremal();
    SplitExampleToggleZero();
    var extremal: seq<seq<string>> := [["-b", "-a_single_target"]];
    var t0: seq<string> := ["-a_single_target", "-b"];
    assert t0 != extremal[0];
    RemainingFirst(iuse, extremal, "", satisfies);
    assert Pow2(2) == 4;
    RemainingPrefix(iuse, extremal, "", satisfies, 1, 4);
    SameTokensTwoOrders();
  }

  /** Index 0 opens Remaining when its decoding is new and satisfies the constraint. */
  lemma RemainingFirst(iuse: seq<string>, found: seq<seq<string>>, constraint: string, satisfies: Evaluator)
    requires Toggle(0, iuse, false) !in found && satisfies(constraint, Toggle(0, iuse, false))
    ensures Remaining(iuse, found, constraint, satisfies, 1) == [Toggle(0, iuse, false)]
  {
  }

  /** The sparse entry and the decoding of index 0 hold the same tokens. */
  lemma SameTokensTwoOrders()
    ensures multiset(["-b", "-a_single_target"]) == multiset(["-a_single_target", "-b"])
  {
    assert ["-b", "-a_single_target"] == ["-b"] + ["-a_single_target"];
    assert ["-a_single_target", "-b"] == ["-a_single_target"] + ["-b"];
  }

  /**
   * The sparse and dense searches together on three flags under "!flag1",
   * for any REQUIRED_USE check that accepts exactly the lists without the
   * token flag1: the all-disabled list, then every flag but flag1.
   */
  lemma SparseDenseExample(sat: Evaluator)
    requires forall c: string, f: seq<string> :: sat(c, f) <==> "flag1" !in f
    ensures Extremal(["flag1", "flag2", "flag3"], "!flag1", sat, true, true) ==
      [["-flag1", "-flag2", "-flag3"], ["-flag1", "flag2", "flag3"]]
  {
    SparseFirst(sat);
    DenseAfterSparse(sat);
  }

  /** The sparse search alone finds the all-disabled list. */
  lemma SparseFirst(sat: Evaluator)
    requires forall c: string, f: seq<string> :: sat(c, f) <==> "flag1" !in f
    ensures SparseEntries(["flag1", "flag2", "flag3"], "!flag1", sat, true) == [["-flag1", "-flag2", "-flag3"]]
  {
    SparseHead();
    WithoutFlag1();
    FirstQualifyingFirst(ExtremalCandidates(["flag1", "flag2", "flag3"], false), [], "!flag1", sat);
  }

  /** The first sparse candidate of three flags disables all of them. */
  lemma SparseHead()
    ensures |ExtremalCandidates(["flag1", "flag2", "flag3"], false)| >= 1
    ensures ExtremalCandidates(["flag1", "flag2", "flag3"], false)[0] == ["-flag1", "-flag2", "-flag3"]
  {
    var iuse := ["flag1", "flag2", "flag3"];
    ShortFlagsUnmarked(iuse);
    NoSingleTarget(iuse, false);
    SweepHead(iuse, false);
    RenderOff();
  }

  /** The three lists with flag1 disabled that the examples use do not hold the token flag1. */
  lemma WithoutFlag1()
    ensures "flag1" !in ["-flag1", "-flag2", "-flag3"]
    ensures "flag1" !in ["-flag1", "flag2", "flag3"]
    ensures "flag1" !in ["-flag1", "flag2", "-flag3"]
  {
    var a: seq<string> := ["-flag1", "-flag2", "-flag3"];
    var b: seq<string> := ["-flag1", "flag2", "flag3"];
    var c: seq<string> := ["-flag1", "flag2", "-flag3"];
    assert a[0] != "flag1" && a[1] != "flag1" && a[2] != "flag1";
    assert b[0] != "flag1" && b[1] != "flag1" && b[2] != "flag1";
    assert c[0] != "flag1" && c[1] != "flag1" && c[2] != "flag1";
  }

  /** After the sparse entry, the dense search finds every flag but flag1. */
  lemma DenseAfterSparse(sat: Evaluator)
    requires forall c: string, f: seq<string> :: sat(c, f) <==> "flag1" !in f
    ensures FirstFound(ExtremalCandidates(["flag1", "flag2", "flag3"], true), [["-flag1", "-flag2", "-flag3"]], "!flag1", sat)
      == [["-flag1", "flag2", "flag3"]]
  {
    DenseCandidates();
    WithoutFlag1();
    DenseApart();
    FirstQualifyingSecond(ExtremalCandidates(["flag1", "flag2", "flag3"], true), [["-flag1", "-flag2", "-flag3"]],
                          "!flag1", sat);
  }

  /** The all-enabled list holds flag1, and the dense entry is not the sparse one. */
  lemma DenseApart()
    ensures "flag1" in ["flag1", "flag2", "flag3"]
    ensures ["-flag1", "flag2", "flag3"] !in [["-flag1", "-flag2", "-flag3"]]
  {
    var all: seq<string> := ["flag1", "flag2", "flag3"];
    var sparse: seq<string> := ["-flag1", "-flag2", "-flag3"];
    var dense: seq<string> := ["-flag1", "flag2", "flag3"];
    assert all[0] == "flag1";
    assert dense[1] != sparse[1];
  }

  /** The first candidate is found when it qualifies. */
  lemma FirstQualifyingFirst(candidates: seq<seq<string>>, found: seq<seq<string>>, constraint: string,
                             satisfies: Evaluator)
    requires |candidates| >= 1 && Qualifies(candidates[0], found, constraint, satisfies)
    ensures FirstFound(candidates, found, constraint, satisfies) == [candidates[0]]
  {
  }

  /** The second candidate is the first qualifying one when the first does not qualify. */
  lemma FirstQualifyingSecond(candidates: seq<seq<string>>, found: seq<seq<string>>, constraint: string,
                              satisfies: Evaluator)
    requires |candidates| >= 2
    requires !Qualifies(candidates[0], found, constraint, satisfies)
    requires Qualifies(candidates[1], found, constraint, satisfies)
    ensures FirstFound(candidates, found, constraint, satisfies) == [candidates[1]]
  {
    assert candidates[1..][0] == candidates[1];
  }

  /**
   * get_use_combinations(["flag1", "flag2", "flag3"], ["!flag1"], 3, True, True):
   * three lists, the sparse and the dense entry first, then one more list
   * with flag1 disabled.
   */
  method SparseDenseRun(sat: Evaluator) returns (combinations: seq<seq<string>>)
    requires forall c: string, f: seq<string> :: sat(c, f) <==> "flag1" !in f
    ensures |combinations| == 3
    ensures combinations[0] == ["-flag1", "-flag2", "-flag3"] && combinations[1] == ["-flag1", "flag2", "flag3"]
    ensures IsAssignment(combinations[2], ["flag1", "flag2", "flag3"]) && combinations[2][0] == "-flag1"
  {
    var iuse := ["flag1", "flag2", "flag3"];
    combinations := GetUseCombinations(iuse, ["!flag1"], 3, true, true, sat);
    assert Join(["!flag1"]) == "!flag1";
    assert Pow2(3) == 8;
    SparseDenseExample(sat);
    ToggleExampleTwo();
    WithoutFlag1();
    OtherApart();
    BudgetFilled(combinations, [["-flag1", "-flag2", "-flag3"], ["-flag1", "flag2", "flag3"]], ["-flag1", "flag2", "-flag3"]);
    assert IsAssignment(combinations[2], iuse) && sat("!flag1", combinations[2]);
    FirstDisabled(combinations[2]);
  }

  /**
   * A list that starts with `extremal`, has room for one more entry, and
   * either fills it or holds `other`, an entry outside `extremal`, has that
   * one more entry.
   */
  lemma BudgetFilled(combinations: seq<seq<string>>, extremal: seq<seq<string>>, other: seq<string>)
    requires extremal <= combinations && |combinations| <= |extremal| + 1
    requires other !in extremal
    requires |combinations| >= |extremal| + 1 || other in combinations
    ensures |combinations| == |extremal| + 1
  {
    if |combinations| == |extremal| {
      FullPrefixMember(extremal, combinations, other);
    }
  }

  /** A prefix as long as the whole list holds every entry of it. */
  lemma FullPrefixMember(s: seq<seq<string>>, t: seq<seq<string>>, x: seq<string>)
    requires s <= t && |s| == |t| && x in t
    ensures x in s
  {
    assert s == t;
  }

  /** The third list of the example is neither the sparse nor the dense entry. */
  lemma OtherApart()
    ensures ["-flag1", "flag2", "-flag3"] !in [["-flag1", "-flag2", "-flag3"], ["-flag1", "flag2", "flag3"]]
  {
    var other: seq<string> := ["-flag1", "flag2", "-flag3"];
    var sparse: seq<string> := ["-flag1", "-flag2", "-flag3"];
    var dense: seq<string> := ["-flag1", "flag2", "flag3"];
    assert other[1] != sparse[1] && other[2] != dense[2];
  }

  /** An assignment of flag1, flag2, flag3 without the token flag1 starts with -flag1. */
  lemma FirstDisabled(flags: seq<string>)
    requires IsAssignment(flags, ["flag1", "flag2", "flag3"]) && "flag1" !in flags
    ensures flags[0] == "-flag1"
  {
    var iuse := ["flag1", "flag2", "flag3"];
    assert flags[0] == iuse[0] || flags[0] == "-" + iuse[0];
  }

  /**
   * get_use_combinations(["flag1", "flag2", "flag3"], ["flag1"], 999): the
   * whole function, for any REQUIRED_USE check that accepts exactly the lists
   * holding the token flag1, runs exhaustively and keeps the four lists
   * enabling flag1, in index order.
   */
  method ExhaustiveRun(sat: Evaluator) returns (combinations: seq<seq<string>>)
    requires forall c: string, f: seq<string> :: sat(c, f) <==> "flag1" in f
    ensures combinations ==
      [["flag1", "-flag2", "-flag3"], ["flag1", "flag2", "-flag3"], ["flag1", "-flag2", "flag3"], ["flag1", "flag2", "flag3"]]
  {
    var iuse := ["flag1", "flag2", "flag3"];
    combinations := GetUseCombinations(iuse, ["flag1"], 999, false, false, sat);
    assert Join(["flag1"]) == "flag1";
    assert Pow2(3) == 8;
    assert Extremal(iuse, "flag1", sat, false, false) == [];
    ExhaustiveExample(sat);
  }
}
