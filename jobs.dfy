/**
 * `define_jobs` of pkg_testing_tools/job.py: the ordered list of test jobs
 * for one package atom, built from the package metadata, the command-line
 * options and the USE-flag combinations of `get_use_combinations`.
 *
 * The metadata portage would look up is an input; so is the REQUIRED_USE
 * evaluator that `get_use_combinations` consults.
 */
module Jobs {
  import opened Wrappers
  import opened Toggles
  import opened Sweep
  import opened UseCombinations

  /** `--test-feature-scope`; "first" is handled here although the option parser does not offer it. */
  datatype TestFeatureScope = Once | Always | Force | Never | First

  /** `extra_env_files` of a job: the joined file names, or the empty list when none were given. */
  datatype ExtraEnvFiles = NoExtraEnvFiles | Joined(files: string)

  /** One job record; `useFlagsScope` is None where the record has no `use_flags_scope` key. */
  datatype Job = Job(cpv: string, cp: string, extraEnvFiles: ExtraEnvFiles, testFeatureToggle: bool,
                     useFlags: seq<string>, useFlagsScope: Option<string>)

  /** The options define_jobs reads; an absent `--append-required-use` is None. */
  datatype Args = Args(appendRequiredUse: Option<string>, maxUseCombinations: int,
                       testFeatureScope: TestFeatureScope, useFlagsScope: string, extraEnvFile: seq<string>)

  /** The parts of get_package_metadata define_jobs reads. */
  datatype PackageMetadata = PackageMetadata(cp: string, hasTests: bool, iuse: seq<string>, ruse: seq<string>)

  function ExtraEnvFilesOf(args: Args): ExtraEnvFiles
  {
    if args.extraEnvFile != [] then Joined(Join(args.extraEnvFile)) else NoExtraEnvFiles
  }

  /** The REQUIRED_USE entries after `--append-required-use`, when given and non-empty, is appended. */
  function EffectiveRuse(meta: PackageMetadata, args: Args): seq<string>
  {
    match args.appendRequiredUse
    case Some(extra) => if extra != "" then meta.ruse + [extra] else meta.ruse
    case None => meta.ruse
  }

  /** Combinations are requested only for a package with flags and a non-zero budget. */
  predicate Requested(meta: PackageMetadata, args: Args)
  {
    |meta.iuse| > 0 && args.maxUseCombinations != 0
  }

  /** The toggle of the job for each combination. */
  function CombinationToggle(meta: PackageMetadata, args: Args): bool
  {
    (meta.hasTests && args.testFeatureScope == Always) || args.testFeatureScope == Force
  }

  /** One job per combination, in order, all under the flag scope. */
  function CombinationJobs(atom: string, meta: PackageMetadata, args: Args, combinations: seq<seq<string>>): seq<Job>
  {
    seq(|combinations|, k requires 0 <= k < |combinations| =>
      Job(atom, meta.cp, ExtraEnvFilesOf(args), CombinationToggle(meta, args), combinations[k], Some(args.useFlagsScope)))
  }

  /** A job with the package's default flags. */
  function DefaultJob(atom: string, meta: PackageMetadata, args: Args, toggle: bool, flagsScope: Option<string>): Job
  {
    Job(atom, meta.cp, ExtraEnvFilesOf(args), toggle, [], flagsScope)
  }

  lemma CombinationJobsAppend(atom: string, meta: PackageMetadata, args: Args, combinations: seq<seq<string>>, flags: seq<string>)
    ensures CombinationJobs(atom, meta, args, combinations + [flags]) ==
      CombinationJobs(atom, meta, args, combinations) +
      [Job(atom, meta.cp, ExtraEnvFilesOf(args), CombinationToggle(meta, args), flags, Some(args.useFlagsScope))]
  {
    var l := CombinationJobs(atom, meta, args, combinations + [flags]);
    var r := CombinationJobs(atom, meta, args, combinations) +
      [Job(atom, meta.cp, ExtraEnvFilesOf(args), CombinationToggle(meta, args), flags, Some(args.useFlagsScope))];
    forall i | 0 <= i < |l| ensures l[i] == r[i] {
      if i < |combinations| {
        assert (combinations + [flags])[i] == combinations[i];
      }
    }
  }

  /**
   * The job list as a decision table on the combinations, `has_tests` and the
   * scope: with combinations, one job per combination, framed by a
   * default-flag job with tests first ("first") or last ("once") when the
   * package has tests; without, a single default job, or a pair of default
   * jobs with tests off and on in the order the scope asks for.
   */
  function JobTable(atom: string, meta: PackageMetadata, args: Args, combinations: seq<seq<string>>): seq<Job>
  {
    var scope := args.testFeatureScope;
    var withScope := Some(args.useFlagsScope);
    if combinations != [] then
      (if meta.hasTests && scope == First then [DefaultJob(atom, meta, args, true, withScope)] else []) +
      CombinationJobs(atom, meta, args, combinations) +
      (if meta.hasTests && scope == Once then [DefaultJob(atom, meta, args, true, withScope)] else [])
    else if !meta.hasTests || scope == Never then
      [DefaultJob(atom, meta, args, scope == Force, withScope)]
    else if scope == First then
      [DefaultJob(atom, meta, args, true, None), DefaultJob(atom, meta, args, false, None)]
    else
      [DefaultJob(atom, meta, args, false, None), DefaultJob(atom, meta, args, true, None)]
  }

  /**
   * define_jobs(atom, args) for a package with metadata `meta`. The
   * combinations come from get_use_combinations without sparse or dense
   * entries, so they are the exhaustive decoding when the budget allows it and
   * a sample otherwise.
   */
  method DefineJobs(atom: string, meta: PackageMetadata, args: Args, satisfies: Evaluator) returns (jobs: seq<Job>)
    ensures !Requested(meta, args) ==> jobs == JobTable(atom, meta, args, [])
    ensures Requested(meta, args) && Exhaustive(args.maxUseCombinations, |meta.iuse|) ==>
      jobs == JobTable(atom, meta, args,
                       Remaining(meta.iuse, [], Join(EffectiveRuse(meta, args)), satisfies, Pow2(|meta.iuse|)))
    ensures Requested(meta, args) && !Exhaustive(args.maxUseCombinations, |meta.iuse|) ==>
      exists combinations :: jobs == JobTable(atom, meta, args, combinations) &&
        Distinct(combinations) && |combinations| <= args.maxUseCombinations &&
        (forall k :: 0 <= k < |combinations| ==>
          IsAssignment(combinations[k], meta.iuse) && satisfies(Join(EffectiveRuse(meta, args)), combinations[k])) &&
        (|combinations| == args.maxUseCombinations ||
         forall index: nat ::
           index < Pow2(|meta.iuse|) && satisfies(Join(EffectiveRuse(meta, args)), Toggle(index, meta.iuse, false)) ==>
           Toggle(index, meta.iuse, false) in combinations)
  {
    var ruse := meta.ruse;
    if args.appendRequiredUse.Some? && args.appendRequiredUse.value != "" {
      ruse := ruse + [args.appendRequiredUse.value];
    }
    assert ruse == EffectiveRuse(meta, args);
    var useCombinations: seq<seq<string>>;
    if |meta.iuse| > 0 && args.maxUseCombinations != 0 {
      useCombinations := GetUseCombinations(meta.iuse, ruse, args.maxUseCombinations, false, false, satisfies);
    } else {
      useCombinations := [];
    }
    jobs := BuildJobs(atom, meta, args, useCombinations);
    if Requested(meta, args) {
      assert SparseEntries(meta.iuse, Join(ruse), satisfies, false) == [];
      assert Extremal(meta.iuse, Join(ruse), satisfies, false, false) == [];
      if Exhaustive(args.maxUseCombinations, |meta.iuse|) {
        assert useCombinations == Remaining(meta.iuse, [], Join(ruse), satisfies, Pow2(|meta.iuse|));
      } else {
        assert forall k :: 0 <= k < |useCombinations| ==> IsAssignment(useCombinations[k], meta.iuse);
      }
    }
  }

  /** The job-list part of define_jobs, once the combinations are known. */
  method BuildJobs(atom: string, meta: PackageMetadata, args: Args, useCombinations: seq<seq<string>>)
    returns (jobs: seq<Job>)
    ensures jobs == JobTable(atom, meta, args, useCombinations)
  {
    jobs := [];
    var envFiles := if args.extraEnvFile != [] then Joined(Join(args.extraEnvFile)) else NoExtraEnvFiles;
    var scope := args.testFeatureScope;
    if useCombinations != [] {
      if meta.hasTests && scope == First {
        jobs := jobs + [Job(atom, meta.cp, envFiles, true, [], Some(args.useFlagsScope))];
      }
      var combinationJobs := AddCombinationJobs(atom, meta, args, useCombinations);
      jobs := jobs + combinationJobs;
      if meta.hasTests && scope == Once {
        jobs := jobs + [Job(atom, meta.cp, envFiles, true, [], Some(args.useFlagsScope))];
      }
    } else {
      if !meta.hasTests || scope == Never {
        jobs := jobs + [Job(atom, meta.cp, envFiles, scope == Force, [], Some(args.useFlagsScope))];
      } else {
        if scope != First {
          jobs := jobs + [Job(atom, meta.cp, envFiles, false, [], None)];
        }
        jobs := jobs + [Job(atom, meta.cp, envFiles, true, [], None)];
        if scope == First {
          jobs := jobs + [Job(atom, meta.cp, envFiles, false, [], None)];
        }
      }
    }
  }

  /** The loop of define_jobs that adds one job per combination, in order. */
  method AddCombinationJobs(atom: string, meta: PackageMetadata, args: Args, useCombinations: seq<seq<string>>)
    returns (jobs: seq<Job>)
    ensures jobs == CombinationJobs(atom, meta, args, useCombinations)
  {
    jobs := [];
    var envFiles := if args.extraEnvFile != [] then Joined(Join(args.extraEnvFile)) else NoExtraEnvFiles;
    var scope := args.testFeatureScope;
    for k := 0 to |useCombinations|
      invariant jobs == CombinationJobs(atom, meta, args, useCombinations[..k])
    {
      var toggle := (meta.hasTests && scope == Always) || scope == Force;
      var job := Job(atom, meta.cp, envFiles, toggle, useCombinations[k], Some(args.useFlagsScope));
      assert useCombinations[..k + 1] == useCombinations[..k] + [useCombinations[k]];
      CombinationJobsAppend(atom, meta, args, useCombinations[..k], useCombinations[k]);
      jobs := jobs + [job];
    }
    assert useCombinations[..|useCombinations|] == useCombinations;
  }

  // ---------------------------------------------------------------------------
  // Properties of the job table

  /** Every job names the atom as given, the package's cp and the shared env files. */
  lemma JobTableCommon(atom: string, meta: PackageMetadata, args: Args, combinations: seq<seq<string>>)
    ensures forall k :: 0 <= k < |JobTable(atom, meta, args, combinations)| ==>
      var job := JobTable(atom, meta, args, combinations)[k];
      job.cpv == atom && job.cp == meta.cp && job.extraEnvFiles == ExtraEnvFilesOf(args)
  {
  }

  /**
   * The job count: one per combination plus one default job for a package
   * with tests under "first" or "once"; without combinations one job, or two
   * for a package with tests under a scope other than "never".
   */
  lemma JobTableCount(atom: string, meta: PackageMetadata, args: Args, combinations: seq<seq<string>>)
    ensures var scope := args.testFeatureScope;
      |JobTable(atom, meta, args, combinations)| ==
        if combinations != [] then |combinations| + (if meta.hasTests && (scope == First || scope == Once) then 1 else 0)
        else if !meta.hasTests || scope == Never then 1
        else 2
  {
  }

  /** The jobs for the combinations come in combination order, after the leading default job if any. */
  lemma JobTableCombinations(atom: string, meta: PackageMetadata, args: Args, combinations: seq<seq<string>>, k: nat)
    requires k < |combinations|
    ensures var lead := if meta.hasTests && args.testFeatureScope == First then 1 else 0;
      var jobs := JobTable(atom, meta, args, combinations);
      lead + k < |jobs| &&
      jobs[lead + k].useFlags == combinations[k] &&
      jobs[lead + k].testFeatureToggle == ((meta.hasTests && args.testFeatureScope == Always) || args.testFeatureScope == Force) &&
      jobs[lead + k].useFlagsScope == Some(args.useFlagsScope)
  {
    var scope := args.testFeatureScope;
    var envFiles := ExtraEnvFilesOf(args);
    var head := if meta.hasTests && scope == First then [DefaultJob(atom, meta, args, true, Some(args.useFlagsScope))] else [];
    var tail := if meta.hasTests && scope == Once then [DefaultJob(atom, meta, args, true, Some(args.useFlagsScope))] else [];
    var block := CombinationJobs(atom, meta, args, combinations);
    assert JobTable(atom, meta, args, combinations) == head + block + tail;
    assert |head| == if meta.hasTests && scope == First then 1 else 0;
    assert |block| == |combinations|;
    assert (head + block + tail)[|head| + k] == block[k];
    assert block[k] == Job(atom, meta.cp, envFiles, CombinationToggle(meta, args), combinations[k], Some(args.useFlagsScope));
  }

  /** With combinations, every job outside the combination block is a default-flag job with tests on. */
  lemma JobTableFrame(atom: string, meta: PackageMetadata, args: Args, combinations: seq<seq<string>>)
    requires combinations != []
    ensures var jobs := JobTable(atom, meta, args, combinations);
      (meta.hasTests && args.testFeatureScope == First ==>
        jobs[0].useFlags == [] && jobs[0].testFeatureToggle && jobs[0].useFlagsScope == Some(args.useFlagsScope)) &&
      (meta.hasTests && args.testFeatureScope == Once ==>
        jobs[|jobs| - 1].useFlags == [] && jobs[|jobs| - 1].testFeatureToggle &&
        jobs[|jobs| - 1].useFlagsScope == Some(args.useFlagsScope))
  {
    var scope := args.testFeatureScope;
    var envFiles := ExtraEnvFilesOf(args);
    var extra := [DefaultJob(atom, meta, args, true, Some(args.useFlagsScope))];
    var head := if meta.hasTests && scope == First then extra else [];
    var tail := if meta.hasTests && scope == Once then extra else [];
    var block := CombinationJobs(atom, meta, args, combinations);
    var jobs := head + block + tail;
    assert JobTable(atom, meta, args, combinations) == jobs;
    if meta.hasTests && scope == Once {
      assert jobs[|jobs| - 1] == extra[0];
    }
  }

  /**
   * Without combinations the jobs have default flags; there is one, with
   * tests on only under "force", when the package has no tests or the scope
   * is "never", and otherwise two without a flag scope, tests off then on,
   * or on then off under "first".
   */
  lemma JobTableDefaults(atom: string, meta: PackageMetadata, args: Args)
    ensures var jobs := JobTable(atom, meta, args, []);
      var scope := args.testFeatureScope;
      (forall k :: 0 <= k < |jobs| ==> jobs[k].useFlags == []) &&
      (!meta.hasTests || scope == Never ==>
        |jobs| == 1 && jobs[0].testFeatureToggle == (scope == Force) && jobs[0].useFlagsScope == Some(args.useFlagsScope)) &&
      (meta.hasTests && scope != Never ==>
        |jobs| == 2 && jobs[0].useFlagsScope == None && jobs[1].useFlagsScope == None &&
        [jobs[0].testFeatureToggle, jobs[1].testFeatureToggle] == (if scope == First then [true, false] else [false, true]))
  {
  }

  /**
   * An appended REQUIRED_USE entry becomes one more space-separated clause
   * of the constraint that every combination must satisfy.
   */
  lemma EffectiveRuseConstraint(meta: PackageMetadata, args: Args)
    ensures match args.appendRequiredUse
      case Some(extra) =>
        extra != "" ==>
          |EffectiveRuse(meta, args)| == |meta.ruse| + 1 &&
          Join(EffectiveRuse(meta, args)) == (if meta.ruse == [] then extra else Join(meta.ruse) + " " + extra)
      case None => EffectiveRuse(meta, args) == meta.ruse
  {
    if args.appendRequiredUse.Some? && args.appendRequiredUse.value != "" {
      JoinAppend(meta.ruse, args.appendRequiredUse.value);
    }
  }
}
