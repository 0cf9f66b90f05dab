/**
 * Flag preprocessing of pkg_testing_tools/use.py: `strip_use_flags`,
 * `filter_out_use_flags` and the strip, filter, sort pipeline of
 * `get_package_flags` that turns the IUSE tokens of an ebuild into the
 * flags the combination engine toggles.
 */
module UseFlags {

  // ---------------------------------------------------------------------------
  // strip_use_flags

  /** One IUSE token without its leading default marker `+` or `-`. */
  function Strip(flag: string): string
    requires |flag| > 0
  {
    if flag[0] == '+' || flag[0] == '-' then flag[1..] else flag
  }

  /** Every token stripped, in order. */
  function StripAll(flags: seq<string>): seq<string>
    requires forall i :: 0 <= i < |flags| ==> |flags[i]| > 0
  {
    seq(|flags|, i requires 0 <= i < |flags| => Strip(flags[i]))
  }

  /**
   * strip_use_flags: one entry per token, in order; a leading `+` or `-` is
   * dropped and any other token is kept as it is. The source reads `flag[0]`,
   * so every token must be non-empty (`str.split` yields no empty tokens).
   */
  method StripUseFlags(flags: seq<string>) returns (strippedFlags: seq<string>)
    requires forall i :: 0 <= i < |flags| ==> |flags[i]| > 0
    ensures |strippedFlags| == |flags|
    ensures forall i :: 0 <= i < |flags| ==>
      if flags[i][0] in "+-" then strippedFlags[i] == flags[i][1..] else strippedFlags[i] == flags[i]
    ensures strippedFlags == StripAll(flags)
  {
    strippedFlags := [];
    for i := 0 to |flags|
      invariant strippedFlags == StripAll(flags[..i])
    {
      var flag := flags[i];
      if flag[0] in "+-" {
        flag := flag[1..];
      }
      strippedFlags := strippedFlags + [flag];
    }
    assert flags[..|flags|] == flags;
  }

  /** Stripping loses at most the one marker: the token is the marker, if any, then the flag. */
  lemma StripRestores(flag: string)
    requires |flag| > 0
    ensures flag == flag[..|flag| - |Strip(flag)|] + Strip(flag)
    ensures |flag| - |Strip(flag)| <= 1
    ensures |flag| - |Strip(flag)| == 1 <==> flag[0] in "+-"
  {
    assert flag[0] in "+-" <==> flag[0] == '+' || flag[0] == '-';
    if flag[0] == '+' || flag[0] == '-' {
      assert flag[..1] + flag[1..] == flag;
    } else {
      assert flag[..0] + flag == flag;
    }
  }

  /** The example of the docstring: ["-flag1", "+flag2", "flag3"] becomes ["flag1", "flag2", "flag3"]. */
  lemma StripExample()
    ensures StripAll(["-flag1", "+flag2", "flag3"]) == ["flag1", "flag2", "flag3"]
  {
    var r := StripAll(["-flag1", "+flag2", "flag3"]);
    assert r[0] == "-flag1"[1..];
    assert r[1] == "+flag2"[1..];
  }

  // ---------------------------------------------------------------------------
  // filter_out_use_flags

  /** Flags with these prefixes are never toggled. */
  const IgnoredPrefixes: seq<string> :=
    ["abi_", "cpu_flags_", "eglibc_", "elibc_", "kernel_", "l10n_", "linguas_", "perl_features_", "video_cards_"]

  /** Flags with these exact names are never toggled. */
  const IgnoredFlags: set<string> := {"debug", "doc", "test", "selinux", "split-usr", "pic"}

  /** `flag.startswith(prefixes)` for a tuple of prefixes. */
  predicate StartsWithAny(flag: string, prefixes: seq<string>)
  {
    exists i :: 0 <= i < |prefixes| && prefixes[i] <= flag
  }

  predicate IsIgnored(flag: string)
  {
    StartsWithAny(flag, IgnoredPrefixes) || flag in IgnoredFlags
  }

  /** The flags that are not ignored, in order. */
  function Filtered(flags: seq<string>): seq<string>
  {
    if flags == [] then []
    else
      var last := flags[|flags| - 1];
      Filtered(flags[..|flags| - 1]) + (if IsIgnored(last) then [] else [last])
  }

  /** filter_out_use_flags: keep, in order, the flags that are not ignored. */
  method FilterOutUseFlags(flags: seq<string>) returns (newFlags: seq<string>)
    ensures newFlags == Filtered(flags)
  {
    newFlags := [];
    for i := 0 to |flags|
      invariant newFlags == Filtered(flags[..i])
    {
      var flag := flags[i];
      assert flags[..i + 1][..i] == flags[..i];
      if !IsIgnored(flag) {
        newFlags := newFlags + [flag];
      }
    }
    assert flags[..|flags|] == flags;
  }

  /** Filtering distributes over concatenation, so it keeps the relative order of what it keeps. */
  lemma {:induction false} FilteredConcat(a: seq<string>, b: seq<string>)
    ensures Filtered(a + b) == Filtered(a) + Filtered(b)
    decreases |b|
  {
    if b != [] {
      var b' := b[..|b| - 1];
      assert (a + b)[..|a + b| - 1] == a + b';
      FilteredConcat(a, b');
    } else {
      assert a + b == a;
    }
  }

  /** A flag is kept exactly when it is in the input and not ignored. */
  lemma {:induction false} FilteredMember(flags: seq<string>, flag: string)
    ensures flag in Filtered(flags) <==> flag in flags && !IsIgnored(flag)
  {
    if flags != [] {
      var init := flags[..|flags| - 1];
      FilteredMember(init, flag);
      assert flags == init + [flags[|flags| - 1]];
    }
  }

  /** The example of the docstring: "debug" is dropped from ["flag1", "flag2", "debug"]. */
  lemma FilterExample()
    ensures Filtered(["flag1", "flag2", "debug"]) == ["flag1", "flag2"]
  {
    assert ["flag1", "flag2", "debug"][..2] == ["flag1", "flag2"];
    assert ["flag1", "flag2"][..1] == ["flag1"];
    assert ["flag1"][..0] == [];
    assert !StartsWithAny("flag1", IgnoredPrefixes) by {
      forall i | 0 <= i < |IgnoredPrefixes| ensures !(IgnoredPrefixes[i] <= "flag1") {
        assert IgnoredPrefixes[i][0] != 'f';
      }
    }
    assert !StartsWithAny("flag2", IgnoredPrefixes) by {
      forall i | 0 <= i < |IgnoredPrefixes| ensures !(IgnoredPrefixes[i] <= "flag2") {
        assert IgnoredPrefixes[i][0] != 'f';
      }
    }
    assert "flag1" !in IgnoredFlags && "flag2" !in IgnoredFlags;
  }

  // ---------------------------------------------------------------------------
  // sorted(): code-point lexicographic order on strings

  /** Python's `a <= b` on strings. */
  predicate StrLeq(a: string, b: string)
  {
    a == [] || (b != [] && (a[0] < b[0] || (a[0] == b[0] && StrLeq(a[1..], b[1..]))))
  }

  lemma {:induction false} StrLeqReflexive(a: string)
    ensures StrLeq(a, a)
  {
    if a != [] {
      StrLeqReflexive(a[1..]);
    }
  }

  lemma {:induction false} StrLeqTotal(a: string, b: string)
    ensures StrLeq(a, b) || StrLeq(b, a)
  {
    if a != [] && b != [] && a[0] == b[0] {
      StrLeqTotal(a[1..], b[1..]);
    }
  }

  lemma {:induction false} StrLeqAntisymmetric(a: string, b: string)
    requires StrLeq(a, b) && StrLeq(b, a)
    ensures a == b
  {
    if a != [] && b != [] {
      StrLeqAntisymmetric(a[1..], b[1..]);
      assert a == [a[0]] + a[1..] && b == [b[0]] + b[1..];
    }
  }

  lemma {:induction false} StrLeqTransitive(a: string, b: string, c: string)
    requires StrLeq(a, b) && StrLeq(b, c)
    ensures StrLeq(a, c)
  {
    if a != [] && b != [] && c != [] && a[0] == b[0] && b[0] == c[0] {
      StrLeqTransitive(a[1..], b[1..], c[1..]);
    }
  }

  predicate Sorted(s: seq<string>)
  {
    forall i, j :: 0 <= i < j < |s| ==> StrLeq(s[i], s[j])
  }

  /** `x` inserted into the sorted `s` before the first entry above it. */
  function Insert(x: string, s: seq<string>): seq<string>
  {
    if s == [] then [x]
    else if StrLeq(x, s[0]) then [x] + s
    else [s[0]] + Insert(x, s[1..])
  }

  /** `sorted(flags)`, as an insertion sort. */
  function Sort(flags: seq<string>): seq<string>
  {
    if flags == [] then [] else Insert(flags[0], Sort(flags[1..]))
  }

  /** A list with a head is sorted when its tail is and the head is below every tail entry. */
  lemma SortedCons(h: string, t: seq<string>)
    ensures Sorted([h] + t) <==> Sorted(t) && forall k :: 0 <= k < |t| ==> StrLeq(h, t[k])
  {
    var r := [h] + t;
    if Sorted(t) && forall k :: 0 <= k < |t| ==> StrLeq(h, t[k]) {
      forall i, j | 0 <= i < j < |r| ensures StrLeq(r[i], r[j]) {
        assert r[j] == t[j - 1];
        if i > 0 {
          assert r[i] == t[i - 1];
        }
      }
    }
    if Sorted(r) {
      forall i, j | 0 <= i < j < |t| ensures StrLeq(t[i], t[j]) {
        assert t[i] == r[i + 1] && t[j] == r[j + 1];
      }
      forall k | 0 <= k < |t| ensures StrLeq(h, t[k]) {
        assert r[0] == h && t[k] == r[k + 1];
      }
    }
  }

  /** A lower bound of `x` and of every entry of `s` bounds every entry of Insert(x, s). */
  lemma {:induction false} InsertBound(y: string, x: string, s: seq<string>)
    requires StrLeq(y, x)
    requires forall k :: 0 <= k < |s| ==> StrLeq(y, s[k])
    ensures forall k :: 0 <= k < |Insert(x, s)| ==> StrLeq(y, Insert(x, s)[k])
  {
    var r := Insert(x, s);
    if s != [] && !StrLeq(x, s[0]) {
      InsertBound(y, x, s[1..]);
      forall k | 0 <= k < |r| ensures StrLeq(y, r[k]) {
        if k > 0 {
          assert r[k] == Insert(x, s[1..])[k - 1];
        }
      }
    } else if s != [] {
      forall k | 0 <= k < |r| ensures StrLeq(y, r[k]) {
        if k > 0 {
          assert r[k] == s[k - 1];
        }
      }
    }
  }

  lemma {:induction false} InsertSorted(x: string, s: seq<string>)
    requires Sorted(s)
    ensures Sorted(Insert(x, s))
  {
    if s != [] {
      assert s == [s[0]] + s[1..];
      SortedCons(s[0], s[1..]);
      if !StrLeq(x, s[0]) {
        InsertSorted(x, s[1..]);
        StrLeqTotal(x, s[0]);
        InsertBound(s[0], x, s[1..]);
        SortedCons(s[0], Insert(x, s[1..]));
      } else {
        forall k | 0 <= k < |s| ensures StrLeq(x, s[k]) {
          if k > 0 {
            StrLeqTransitive(x, s[0], s[k]);
          }
        }
        SortedCons(x, s);
      }
    }
  }

  lemma {:induction false} InsertMultiset(x: string, s: seq<string>)
    ensures multiset(Insert(x, s)) == multiset(s) + multiset{x}
  {
    if s != [] && !StrLeq(x, s[0]) {
      InsertMultiset(x, s[1..]);
      assert s == [s[0]] + s[1..];
    }
  }

  /** Sort orders its input and keeps every flag with its multiplicity. */
  lemma {:induction false} SortFacts(flags: seq<string>)
    ensures Sorted(Sort(flags))
    ensures multiset(Sort(flags)) == multiset(flags)
  {
    if flags != [] {
      SortFacts(flags[1..]);
      InsertSorted(flags[0], Sort(flags[1..]));
      InsertMultiset(flags[0], Sort(flags[1..]));
      assert flags == [flags[0]] + flags[1..];
    }
  }

  /** Two sorted lists with the same entries start with the same entry. */
  lemma SortedSameHead(a: seq<string>, b: seq<string>)
    requires Sorted(a) && Sorted(b) && multiset(a) == multiset(b) && a != []
    ensures b != [] && a[0] == b[0]
  {
    assert a[0] in multiset(b);
    var j :| 0 <= j < |b| && b[j] == a[0];
    assert b[0] in multiset(a);
    var i :| 0 <= i < |a| && a[i] == b[0];
    StrLeqReflexive(a[0]);
    if j > 0 {
      assert StrLeq(b[0], b[j]);
    }
    if i > 0 {
      assert StrLeq(a[0], a[i]);
    }
    StrLeqAntisymmetric(a[0], b[0]);
  }

  /** Two sorted lists with the same entries are equal: Sort is the one result `sorted` can give. */
  lemma {:induction false} SortedUnique(a: seq<string>, b: seq<string>)
    requires Sorted(a) && Sorted(b) && multiset(a) == multiset(b)
    ensures a == b
    decreases |a|
  {
    if a != [] {
      SortedSameHead(a, b);
      var a', b' := a[1..], b[1..];
      assert a == [a[0]] + a' && b == [b[0]] + b';
      assert multiset(a') == multiset(b') by {
        assert multiset(a) == multiset{a[0]} + multiset(a');
        assert multiset(b) == multiset{a[0]} + multiset(b');
        assert multiset(a') == multiset(a) - multiset{a[0]};
        assert multiset(b') == multiset(b) - multiset{a[0]};
      }
      SortedCons(a[0], a');
      SortedCons(b[0], b');
      SortedUnique(a', b');
    }
  }

  // ---------------------------------------------------------------------------
  // get_package_flags

  /**
   * The flag part of get_package_flags: the IUSE tokens stripped, filtered
   * and sorted; the REQUIRED_USE tokens are returned as they are.
   */
  method GetPackageFlags(iuseTokens: seq<string>, requiredUseTokens: seq<string>)
    returns (useFlags: seq<string>, ruseFlags: seq<string>)
    requires forall i :: 0 <= i < |iuseTokens| ==> |iuseTokens[i]| > 0
    ensures Sorted(useFlags)
    ensures multiset(useFlags) == multiset(Filtered(StripAll(iuseTokens)))
    ensures forall flag :: flag in useFlags <==> flag in StripAll(iuseTokens) && !IsIgnored(flag)
    ensures ruseFlags == requiredUseTokens
  {
    var stripped := StripUseFlags(iuseTokens);
    var filtered := FilterOutUseFlags(stripped);
    useFlags := Sort(filtered);
    SortFacts(filtered);
    forall flag ensures flag in useFlags <==> flag in stripped && !IsIgnored(flag) {
      FilteredMember(stripped, flag);
      assert flag in useFlags <==> flag in multiset(useFlags);
      assert flag in filtered <==> flag in multiset(filtered);
    }
    ruseFlags := requiredUseTokens;
  }
}
