/**
 * Decoding a combination index into a USE-flag assignment
 * (`get_use_flags_toggles` in pkg_testing_tools/use.py).
 *
 * An assignment of the flags `iuse` is a list with one token per flag, in the
 * order of `iuse`: the bare flag name when the flag is enabled, the name behind
 * a "-" when it is disabled.  Bit i of the index decides flag i.
 */
module Toggles {

  /** `2 ** n`: the number of assignments of n flags. */
  function Pow2(n: nat): (r: nat)
    ensures r >= 1
  {
    if n == 0 then 1 else 2 * Pow2(n - 1)
  }

  /** Bit i of a non-negative index, that is, whether `(2**i) & index` is non-zero. */
  function Bit(index: nat, i: nat): bool
  {
    (index / Pow2(i)) % 2 == 1
  }

  /** The low n bits of index, least significant first. */
  function Bits(index: nat, n: nat): (bits: seq<bool>)
    ensures |bits| == n
  {
    if n == 0 then [] else [index % 2 == 1] + Bits(index / 2, n - 1)
  }

  /** The number whose binary digits, least significant first, are `bits`. */
  function FromBits(bits: seq<bool>): (index: nat)
    ensures index < Pow2(|bits|)
  {
    if bits == [] then 0 else (if bits[0] then 1 else 0) + 2 * FromBits(bits[1..])
  }

  /** The token of one flag: its name when enabled, "-" and its name when disabled. */
  function Signed(flag: string, enabled: bool): string
  {
    if enabled then flag else "-" + flag
  }

  /**
   * The assignment in which flag i is marked exactly when mask[i] holds; a
   * marked flag is enabled, or disabled when `inverted`.
   */
  function Render(mask: seq<bool>, iuse: seq<string>, inverted: bool): seq<string>
    requires |mask| == |iuse|
  {
    seq(|iuse|, i requires 0 <= i < |iuse| => Signed(iuse[i], mask[i] != inverted))
  }

  /** The assignment that index stands for. */
  function Toggle(index: nat, iuse: seq<string>, inverted: bool): seq<string>
  {
    Render(Bits(index, |iuse|), iuse, inverted)
  }

  /** `flags` decides every flag of `iuse`, in the order of `iuse`, and nothing else. */
  predicate IsAssignment(flags: seq<string>, iuse: seq<string>)
  {
    |flags| == |iuse| &&
    forall i :: 0 <= i < |iuse| ==> flags[i] == iuse[i] || flags[i] == "-" + iuse[i]
  }

  /** Which flags an assignment enables. */
  function EnabledMask(flags: seq<string>, iuse: seq<string>): seq<bool>
    requires |flags| == |iuse|
  {
    seq(|iuse|, i requires 0 <= i < |iuse| => flags[i] == iuse[i])
  }

  /** The index of an assignment: the inverse of Toggle. */
  function IndexOf(flags: seq<string>, iuse: seq<string>): nat
    requires |flags| == |iuse|
  {
    FromBits(EnabledMask(flags, iuse))
  }

  /**
   * get_use_flags_toggles: collect one prefix per flag, chosen by bit i of
   * index, then glue the prefixes to the flag names.
   */
  method GetUseFlagsToggles(index: nat, iuse: seq<string>, inverted: bool) returns (flags: seq<string>)
    ensures |flags| == |iuse|
    ensures forall i {:trigger Bit(index, i)} :: 0 <= i < |iuse| ==>
      flags[i] == (if Bit(index, i) != inverted then iuse[i] else "-" + iuse[i])
    ensures flags == Toggle(index, iuse, inverted)
  {
    var onOffSwitches: seq<string> := [];
    var strEnabled := if !inverted then "" else "-";
    var strDisabled := if !inverted then "-" else "";
    var i := 0;
    while i < |iuse|
      invariant 0 <= i <= |iuse|
      invariant |onOffSwitches| == i
      invariant forall j :: 0 <= j < i ==>
        onOffSwitches[j] == if Bit(index, j) then strEnabled else strDisabled
    {
      if (index / Pow2(i)) % 2 == 1 {
        onOffSwitches := onOffSwitches + [strEnabled];
      } else {
        onOffSwitches := onOffSwitches + [strDisabled];
      }
      i := i + 1;
    }
    flags := seq(|iuse|, j requires 0 <= j < |iuse| => onOffSwitches[j] + iuse[j]);
    forall j | 0 <= j < |iuse| ensures flags[j] == Toggle(index, iuse, inverted)[j] {
      BitsAt(index, |iuse|, j);
    }
  }

  // ---------------------------------------------------------------------------
  // Bits and numbers

  /** Halving and then dividing by p is dividing by 2p. */
  lemma DivHalf(a: nat, p: nat)
    requires p > 0
    ensures (a / 2) / p == a / (2 * p)
  {
    var q := a / (2 * p);
    var r := a % (2 * p);
    assert a == (2 * p) * q + r;
    assert a == 2 * (p * q) + r;
    assert a / 2 == p * q + r / 2;
    assert 0 <= r / 2 < p;
    DivUnique(a / 2, p, q, r / 2);
  }

  lemma DivUnique(a: nat, p: nat, q: nat, s: nat)
    requires p > 0 && a == p * q + s && s < p
    ensures a / p == q
  {
    var q' := a / p;
    var s' := a % p;
    assert a == p * q' + s';
    if q' < q {
      assert p * q == p * q' + p * (q - q');
      MulAtLeast(p, q - q');
    } else if q' > q {
      assert p * q' == p * q + p * (q' - q);
      MulAtLeast(p, q' - q);
    }
  }

  lemma MulAtLeast(p: nat, k: nat)
    requires k >= 1
    ensures p * k >= p
  {
    assert p * k == p + p * (k - 1);
  }

  lemma {:induction false} BitsAt(index: nat, n: nat, i: nat)
    requires i < n
    ensures Bits(index, n)[i] == Bit(index, i)
  {
    if i > 0 {
      BitsAt(index / 2, n - 1, i - 1);
      DivHalf(index, Pow2(i - 1));
    }
  }

  /** Decoding the low n bits of an index below 2^n gives the index back. */
  lemma {:induction false} FromBitsBits(index: nat, n: nat)
    requires index < Pow2(n)
    ensures FromBits(Bits(index, n)) == index
  {
    if n > 0 {
      FromBitsBits(index / 2, n - 1);
    }
  }

  /** Encoding a bit list as a number and reading its bits back gives the list back. */
  lemma {:induction false} BitsFromBits(bits: seq<bool>)
    ensures Bits(FromBits(bits), |bits|) == bits
  {
    if bits != [] {
      BitsFromBits(bits[1..]);
      var x := FromBits(bits);
      assert x % 2 == 1 <==> bits[0];
      assert x / 2 == FromBits(bits[1..]);
      assert Bits(x, |bits|) == [bits[0]] + bits[1..];
    }
  }

  // ---------------------------------------------------------------------------
  // Assignments

  /** Distinct masks give distinct assignments: "flag" and "-flag" differ in length. */
  lemma RenderInjective(m1: seq<bool>, m2: seq<bool>, iuse: seq<string>, inverted: bool)
    requires |m1| == |iuse| && |m2| == |iuse|
    requires Render(m1, iuse, inverted) == Render(m2, iuse, inverted)
    ensures m1 == m2
  {
    forall i | 0 <= i < |iuse| ensures m1[i] == m2[i] {
      assert |Render(m1, iuse, inverted)[i]| == |Render(m2, iuse, inverted)[i]|;
    }
  }

  lemma RenderIsAssignment(mask: seq<bool>, iuse: seq<string>, inverted: bool)
    requires |mask| == |iuse|
    ensures IsAssignment(Render(mask, iuse, inverted), iuse)
  {
  }

  /** The enabled flags of a rendered mask are the mask itself (or its complement when inverted). */
  lemma EnabledMaskRender(mask: seq<bool>, iuse: seq<string>, inverted: bool)
    requires |mask| == |iuse|
    ensures forall i :: 0 <= i < |iuse| ==> EnabledMask(Render(mask, iuse, inverted), iuse)[i] == (mask[i] != inverted)
  {
    forall i | 0 <= i < |iuse|
      ensures EnabledMask(Render(mask, iuse, inverted), iuse)[i] == (mask[i] != inverted)
    {
      if mask[i] == inverted {
        assert |Render(mask, iuse, inverted)[i]| == |iuse[i]| + 1;
      }
    }
  }

  /** Rendering the enabled flags of an assignment rebuilds the assignment. */
  lemma RenderEnabledMask(flags: seq<string>, iuse: seq<string>)
    requires IsAssignment(flags, iuse)
    ensures Render(EnabledMask(flags, iuse), iuse, false) == flags
  {
    forall i | 0 <= i < |iuse| ensures Render(EnabledMask(flags, iuse), iuse, false)[i] == flags[i] {
      if flags[i] != iuse[i] {
        assert flags[i] == "-" + iuse[i];
      }
    }
  }

  /** Every decoded index is an assignment of `iuse`. */
  lemma ToggleIsAssignment(index: nat, iuse: seq<string>, inverted: bool)
    ensures IsAssignment(Toggle(index, iuse, inverted), iuse)
  {
    RenderIsAssignment(Bits(index, |iuse|), iuse, inverted);
  }

  /** With `inverted` every flag takes the opposite polarity. */
  lemma ToggleInverted(index: nat, iuse: seq<string>)
    ensures |Toggle(index, iuse, true)| == |Toggle(index, iuse, false)| == |iuse|
    ensures forall i :: 0 <= i < |iuse| ==>
      (Toggle(index, iuse, true)[i] == iuse[i] <==> Toggle(index, iuse, false)[i] == "-" + iuse[i])
  {
    forall i | 0 <= i < |iuse|
      ensures Toggle(index, iuse, true)[i] == iuse[i] <==> Toggle(index, iuse, false)[i] == "-" + iuse[i]
    {
      var f := iuse[i];
      assert |"-" + f| == |f| + 1;
    }
  }

  /** Decoding, then reading the index back, gives the index: `IndexOf` inverts `Toggle`. */
  lemma ToggleRoundTrip(index: nat, iuse: seq<string>)
    requires index < Pow2(|iuse|)
    ensures IndexOf(Toggle(index, iuse, false), iuse) == index
  {
    var bits := Bits(index, |iuse|);
    EnabledMaskRender(bits, iuse, false);
    assert EnabledMask(Toggle(index, iuse, false), iuse) == bits;
    FromBitsBits(index, |iuse|);
  }

  /** Every assignment is reached: it is the decoding of its own index, which is below 2^n. */
  lemma AssignmentRoundTrip(flags: seq<string>, iuse: seq<string>)
    requires IsAssignment(flags, iuse)
    ensures IndexOf(flags, iuse) < Pow2(|iuse|)
    ensures Toggle(IndexOf(flags, iuse), iuse, false) == flags
  {
    var mask := EnabledMask(flags, iuse);
    BitsFromBits(mask);
    RenderEnabledMask(flags, iuse);
  }

  /** On [0, 2^n) distinct indices decode to distinct assignments. */
  lemma ToggleInjective(i: nat, j: nat, iuse: seq<string>, inverted: bool)
    requires i < Pow2(|iuse|) && j < Pow2(|iuse|)
    requires Toggle(i, iuse, inverted) == Toggle(j, iuse, inverted)
    ensures i == j
  {
    RenderInjective(Bits(i, |iuse|), Bits(j, |iuse|), iuse, inverted);
    FromBitsBits(i, |iuse|);
    FromBitsBits(j, |iuse|);
  }

  /** Examples of the get_use_flags_toggles documentation. */
  lemma ToggleExampleZero()
    ensures Toggle(0, ["flag1", "flag2", "flag3"], false) == ["-flag1", "-flag2", "-flag3"]
  {
    var t := Toggle(0, ["flag1", "flag2", "flag3"], false);
    assert Bits(0, 3) == [false, false, false];
    assert t[0] == "-flag1" && t[1] == "-flag2" && t[2] == "-flag3";
  }

  lemma ToggleExampleOne()
    ensures Toggle(1, ["flag1", "flag2", "flag3"], false) == ["flag1", "-flag2", "-flag3"]
  {
    var t := Toggle(1, ["flag1", "flag2", "flag3"], false);
    assert Bits(1, 3) == [true, false, false];
    assert t[0] == "flag1" && t[1] == "-flag2" && t[2] == "-flag3";
  }

  lemma ToggleExampleTwo()
    ensures Toggle(2, ["flag1", "flag2", "flag3"], false) == ["-flag1", "flag2", "-flag3"]
  {
    var t := Toggle(2, ["flag1", "flag2", "flag3"], false);
    assert Bits(2, 3) == [false, true, false];
    assert t[0] == "-flag1" && t[1] == "flag2" && t[2] == "-flag3";
  }

  lemma ToggleExampleFour()
    ensures Toggle(4, ["flag1", "flag2", "flag3"], false) == ["-flag1", "-flag2", "flag3"]
  {
    var t := Toggle(4, ["flag1", "flag2", "flag3"], false);
    assert Bits(4, 3) == [false, false, true];
    assert t[0] == "-flag1" && t[1] == "-flag2" && t[2] == "flag3";
  }

  lemma ToggleExampleFive()
    ensures Toggle(5, ["flag1", "flag2", "flag3"], false) == ["flag1", "-flag2", "flag3"]
  {
    var t := Toggle(5, ["flag1", "flag2", "flag3"], false);
    assert Bits(5, 3) == [true, false, true];
    assert t[0] == "flag1" && t[1] == "-flag2" && t[2] == "flag3";
  }

  lemma ToggleExampleSeven()
    ensures Toggle(7, ["flag1", "flag2", "flag3"], false) == ["flag1", "flag2", "flag3"]
  {
    var t := Toggle(7, ["flag1", "flag2", "flag3"], false);
    assert Bits(7, 3) == [true, true, true];
    assert t[0] == "flag1" && t[1] == "flag2" && t[2] == "flag3";
  }

  lemma ToggleExampleThree()
    ensures Toggle(3, ["flag1", "flag2", "flag3"], false) == ["flag1", "flag2", "-flag3"]
  {
    var t := Toggle(3, ["flag1", "flag2", "flag3"], false);
    assert Bits(3, 3) == [true, true, false];
    assert t[0] == "flag1" && t[1] == "flag2" && t[2] == "-flag3";
  }

  lemma ToggleExampleFourInverted()
    ensures Toggle(4, ["flag1", "flag2", "flag3"], true) == ["flag1", "flag2", "-flag3"]
  {
    var t := Toggle(4, ["flag1", "flag2", "flag3"], true);
    assert Bits(4, 3) == [false, false, true];
    assert t[0] == "flag1" && t[1] == "flag2" && t[2] == "-flag3";
  }

  lemma ToggleExampleZeroInverted()
    ensures Toggle(0, ["flag1", "flag2", "flag3"], true) == ["flag1", "flag2", "flag3"]
  {
    var t := Toggle(0, ["flag1", "flag2", "flag3"], true);
    assert Bits(0, 3) == [false, false, false];
    assert t[0] == "flag1" && t[1] == "flag2" && t[2] == "flag3";
  }
}
