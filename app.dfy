/** The command-line entry point: validate the configuration and the patch
    flag, gather the repository facts from git, build the patch, and enqueue
    the staging job. Every external effect is a parameter: the environment,
    the argument vector, what each git command yields, the job collection and
    whether the store can be reached. */
module App {
  import opened Wrappers
  import opened JsStrings
  import opened StagingUtils
  import opened JobQueue

  /** The head sentinel every payload of this tool carries. */
  const NewHead: string := "newHead"

  /** What the repository and the file system yield for one run. The first
      four are the results of the one-command wrappers (on success, the
      command's output with its first line break removed); the next three
      are the raw results of the commands the core classifies itself;
      `patch` says what running each patch strategy yields. */
  datatype GitIo = GitIo(
    user: ExecResult,
    email: ExecResult,
    remoteUrl: ExecResult,
    branch: ExecResult,
    upstreamRef: ExecResult,
    remoteBranchDiff: ExecResult,
    cherry: ExecResult,
    patch: PatchStrategy -> PatchIo)

  /** The steps whose failure is caught and ends the run quietly. */
  datatype Step = GitUser | GitEmail | RepoInfo | BranchName | UpstreamConfiguration | RemoteBranch | GitCommits

  /** How a run ends. */
  datatype RunOutcome =
    | ConfigMissing(missing: seq<string>)    // the process exits
    | NoPatchFlag
    | InvalidPatchFlag
    | StepFailed(step: Step)                  // a caught error: return
    | NothingToStage                          // no unpushed commits: the process exits
    | PatchFailed(strategy: PatchStrategy)    // the patch promise rejects, and with it the run
    | Completed(strategy: PatchStrategy, payload: Payload, title: string, enqueue: InsertOutcome)

  /** `process.argv[i]`: absent past the end of the vector. */
  function Arg(argv: seq<string>, i: nat): (a: Option<string>)
    ensures a.Some? <==> i < |argv|
    ensures a.Some? ==> a.value == argv[i]
  {
    if i < |argv| then Some(argv[i]) else None
  }

  /** The members every object inherits from `Object.prototype`. */
  predicate IsObjectPrototypeKey(key: string) {
    key in {"constructor", "hasOwnProperty", "isPrototypeOf", "propertyIsEnumerable", "toLocaleString",
            "toString", "valueOf", "__proto__", "__defineGetter__", "__defineSetter__",
            "__lookupGetter__", "__lookupSetter__"}
  }

  lemma DigitKeysNotInherited()
    ensures !IsObjectPrototypeKey("0") && !IsObjectPrototypeKey("1")
  {
  }

  /** A property lookup on the object `getGitCommits` resolves with: its two
      own properties, and undefined for a key that is neither one of them nor
      inherited, such as "0" or "1". */
  function Property(range: CommitRange, key: string): (v: JsValue)
    requires !IsObjectPrototypeKey(key)
    ensures key == "firstCommit" ==> v == Str(range.firstCommit)
    ensures key == "lastCommit" ==> v == range.lastCommit
    ensures key != "firstCommit" && key != "lastCommit" ==> v == Undefined
  {
    if key == "firstCommit" then Str(range.firstCommit)
    else if key == "lastCommit" then range.lastCommit
    else Undefined
  }

  /** The branch name recorded for `upstreamRef`: the upstream name with the
      surrounding white space trimmed. */
  function ResolvedUpstreamName(upstreamRef: string): (name: string)
    ensures Contains(upstreamRef, "origin/") ==> name == "master"
    ensures !Contains(upstreamRef, "origin/") ==> name == Trim(upstreamRef)
  {
    var upstreamName := GetUpstreamName(upstreamRef);
    MasterIsTrimmed(upstreamName);
    Trim(upstreamName)
  }

  lemma MasterIsTrimmed(s: string)
    ensures s == "master" ==> Trim(s) == s
  {
    if s == "master" {
      TrimKeeps(s);
    }
  }

  /** The first step of the git phase that fails, if any. The repository
      name and the upstream name are computed from strings and cannot fail. */
  function FirstFailedStep(io: GitIo): (step: Option<Step>)
    ensures step.None? <==>
      && io.user.Success? && io.email.Success? && io.remoteUrl.Success? && io.branch.Success?
      && io.upstreamRef.Success?
      && (io.remoteBranchDiff.Success? || io.remoteBranchDiff.code == FatalExitCode)
    ensures io.user.Failure? ==> step == Some(GitUser)
    ensures (io.user.Success? && io.email.Failure?) ==> step == Some(GitEmail)
    ensures (io.user.Success? && io.email.Success? && io.remoteUrl.Failure?) ==> step == Some(RepoInfo)
    ensures (io.user.Success? && io.email.Success? && io.remoteUrl.Success? && io.branch.Failure?) ==>
      step == Some(BranchName)
    ensures (&& io.user.Success? && io.email.Success? && io.remoteUrl.Success? && io.branch.Success?
             && io.upstreamRef.Failure?) ==>
      step == Some(UpstreamConfiguration)
    ensures (&& io.user.Success? && io.email.Success? && io.remoteUrl.Success? && io.branch.Success?
             && io.upstreamRef.Success?
             && io.remoteBranchDiff.Failure? && io.remoteBranchDiff.code != FatalExitCode) ==>
      step == Some(RemoteBranch)
  {
    if io.user.Failure? then Some(GitUser)
    else if io.email.Failure? then Some(GitEmail)
    else if io.remoteUrl.Failure? then Some(RepoInfo)
    else if io.branch.Failure? then Some(BranchName)
    else if CheckUpstreamConfiguration(io.upstreamRef).Rejected? then Some(UpstreamConfiguration)
    else if DoesRemoteHaveLocalBranch(io.remoteBranchDiff).Rejected? then Some(RemoteBranch)
    else None
  }

  /** The branch the payload names once the git phase succeeded: the local
      branch when the remote has it, the trimmed upstream name otherwise. */
  function BranchNameForPayload(io: GitIo): (name: string)
    requires FirstFailedStep(io).None?
    ensures io.remoteBranchDiff.Success? ==> name == io.branch.stdout
    ensures io.remoteBranchDiff.Failure? ==> name == ResolvedUpstreamName(io.upstreamRef.stdout)
  {
    if io.remoteBranchDiff.Success? then io.branch.stdout else ResolvedUpstreamName(io.upstreamRef.stdout)
  }

  /** The configuration is complete and the flag names a mode. */
  predicate Ready(env: map<string, string>, argv: seq<string>) {
    MissingConfigs(env) == [] && Arg(argv, 2).Some? && Arg(argv, 2).value in {"local", "commit"}
  }

  /** What a run decides before it touches the queue: stop with an outcome,
      or submit a payload under a title on behalf of a user. */
  datatype Plan =
    | Stop(outcome: RunOutcome)
    | Submit(strategy: PatchStrategy, payload: Payload, title: string, user: string, email: string)

  /** The title of the job, as the queue shows it. */
  function JobTitle(userName: string, repoName: string): string {
    "Github Push: " + userName + "/" + repoName
  }

  /** The plan of `main` for a given environment, argument vector and
      repository. */
  function RunPlan(env: map<string, string>, argv: seq<string>, io: GitIo): Plan {
    if MissingConfigs(env) != [] then Stop(ConfigMissing(MissingConfigs(env)))
    else if Arg(argv, 2).None? then Stop(NoPatchFlag)
    else if argv[2] != "local" && argv[2] != "commit" then Stop(InvalidPatchFlag)
    else if FirstFailedStep(io).Some? then Stop(StepFailed(FirstFailedStep(io).value))
    else if argv[2] == "commit" then
      if io.cherry.Failure? then Stop(StepFailed(GitCommits))
      else if UnpushedCommits(io.cherry.stdout) == [] then Stop(NothingToStage)
      else
        var range := CommitRangeOf(UnpushedCommits(io.cherry.stdout));
        SubmitWith(argv, io, CommitsPatchStrategy(Property(range, "0"), Property(range, "1")))
    else
      SubmitWith(argv, io, LocalPatchStrategy(ResolvedUpstreamName(io.upstreamRef.stdout)))
  }

  /** The rest of the plan once the patch strategy is chosen. */
  function SubmitWith(argv: seq<string>, io: GitIo, strategy: PatchStrategy): Plan
    requires FirstFailedStep(io).None?
  {
    match MaterializePatch(io.patch(strategy))
    case Rejected(_) => Stop(PatchFailed(strategy))
    case Resolved(patch) =>
      var repoName := GetRepoName(io.remoteUrl.stdout);
      Submit(strategy,
             CreatePayload(repoName, BranchNameForPayload(io), io.user.stdout, io.remoteUrl.stdout,
                           patch, Arg(argv, 3), NewHead),
             JobTitle(io.user.stdout, repoName), io.user.stdout, io.email.stdout)
  }

  /** `main` (app.js). `reachedCleanup` says whether the patch file is
      deleted at the end, which happens exactly when the job was handed to
      the queue. */
  method Run(env: map<string, string>, argv: seq<string>, io: GitIo, queue: JobCollection,
             created: Timestamp, store: StoreStatus)
    returns (outcome: RunOutcome, reachedCleanup: bool)
    modifies queue
    ensures RunPlan(env, argv, io).Stop? ==>
      outcome == RunPlan(env, argv, io).outcome && queue.records == old(queue.records)
    ensures RunPlan(env, argv, io).Submit? ==>
      var plan := RunPlan(env, argv, io);
      && outcome.Completed?
      && outcome.strategy == plan.strategy && outcome.payload == plan.payload && outcome.title == plan.title
      && InsertEffect(old(queue.records), queue.records, AsWrittenFilter(plan.payload),
                      NewJob(plan.payload, plan.title, plan.user, plan.email, created), store, outcome.enqueue)
    ensures reachedCleanup <==> outcome.Completed?
  {
    reachedCleanup := false;
    ghost var plan := RunPlan(env, argv, io);
    var patchFlag := Arg(argv, 2);
    var buildSize := Arg(argv, 3);

    var missingConfigs, exits := ValidateConfiguration(env);
    if exits {
      assert plan == Stop(ConfigMissing(missingConfigs));
      return ConfigMissing(missingConfigs), false;
    }
    if patchFlag.None? {
      assert plan == Stop(NoPatchFlag);
      return NoPatchFlag, false;
    }
    var invalidFlag := false;
    if patchFlag.value != "local" && patchFlag.value != "commit" {
      invalidFlag := true;
    }
    if invalidFlag {
      assert plan == Stop(InvalidPatchFlag);
      return InvalidPatchFlag, false;
    }
    assert Ready(env, argv) && argv[2] == patchFlag.value;

    if io.user.Failure? {
      assert plan == Stop(StepFailed(GitUser));
      return StepFailed(GitUser), false;
    }
    var userName := io.user.stdout;
    if io.email.Failure? {
      assert plan == Stop(StepFailed(GitEmail));
      return StepFailed(GitEmail), false;
    }
    var userEmail := io.email.stdout;
    if io.remoteUrl.Failure? {
      assert plan == Stop(StepFailed(RepoInfo));
      return StepFailed(RepoInfo), false;
    }
    var url := io.remoteUrl.stdout;
    var repoName := GetRepoName(url);
    if io.branch.Failure? {
      assert plan == Stop(StepFailed(BranchName));
      return StepFailed(BranchName), false;
    }
    var branchName := io.branch.stdout;
    var upstreamConfig := CheckUpstreamConfiguration(io.upstreamRef);
    if upstreamConfig.Rejected? {
      assert plan == Stop(StepFailed(UpstreamConfiguration));
      return StepFailed(UpstreamConfiguration), false;
    }
    var upstreamName := Trim(GetUpstreamName(upstreamConfig.value));
    var remote := DoesRemoteHaveLocalBranch(io.remoteBranchDiff);
    if remote.Rejected? {
      assert plan == Stop(StepFailed(RemoteBranch));
      return StepFailed(RemoteBranch), false;
    }
    assert FirstFailedStep(io).None?;
    var doesRemoteHaveLocalBranch := remote.value;
    var branchNameForPayload := if doesRemoteHaveLocalBranch then branchName else upstreamName;
    assert branchNameForPayload == BranchNameForPayload(io);
    var title := JobTitle(userName, repoName);

    var strategy, patch;
    if patchFlag.value == "commit" {
      var commits := GetGitCommits(io.cherry);
      if commits.CherryFailed? {
        assert plan == Stop(StepFailed(GitCommits));
        return StepFailed(GitCommits), false;
      }
      if commits.NoUnpushedCommits? {
        assert plan == Stop(NothingToStage);
        return NothingToStage, false;
      }
      // the resolved object has no properties "0" and "1"
      DigitKeysNotInherited();
      var firstCommit := Property(commits.range, "0");
      var lastCommit := Property(commits.range, "1");
      strategy := CommitsPatchStrategy(firstCommit, lastCommit);
      patch := GetGitPatchFromCommits(firstCommit, lastCommit, io.patch);
      assert RunPlan(env, argv, io) == SubmitWith(argv, io, strategy);
    } else {
      strategy := LocalPatchStrategy(upstreamName);
      patch := GetGitPatchFromLocal(upstreamName, io.patch);
      assert upstreamName == ResolvedUpstreamName(io.upstreamRef.stdout);
      assert RunPlan(env, argv, io) == SubmitWith(argv, io, strategy);
    }
    assert patch == MaterializePatch(io.patch(strategy));
    if patch.Rejected? {
      assert plan == Stop(PatchFailed(strategy));
      return PatchFailed(strategy), false;
    }
    var payLoad := CreatePayload(repoName, branchNameForPayload, userName, url, patch.value, buildSize, NewHead);
    var enqueued := queue.InsertJob(payLoad, title, userName, userEmail, created, store);
    outcome := Completed(strategy, payLoad, title, enqueued);
    reachedCleanup := true;
  }

  // ---------------------------------------------------------------------------
  // Properties of the run
  // ---------------------------------------------------------------------------

  /** The "origin/" test is unaffected by whether it is made before or after
      trimming the ref. */
  lemma UpstreamTestBeforeTrim(upstreamRef: string)
    ensures Contains(Trim(upstreamRef), "origin/") <==> Contains(upstreamRef, "origin/")
  {
    var pat := "origin/";
    assert forall k :: 0 <= k < |pat| ==> !IsWhiteSpace(pat[k]);
    TrimKeepsOccurrences(upstreamRef, pat);
  }

  /** A ref of another remote, as git prints it with a line break after it,
      becomes exactly that ref. */
  lemma UpstreamNameOfOtherRemote(ref: string)
    requires |ref| > 0 && !IsWhiteSpace(ref[0]) && !IsWhiteSpace(ref[|ref| - 1])
    requires !Contains(ref, "origin/")
    ensures ResolvedUpstreamName(ref + "\n") == ref
  {
    var s := ref + "\n";
    var (a, b) := TrimBounds(s);
    assert s[0] == ref[0] && s[|ref| - 1] == ref[|ref| - 1];
    assert a == 0;
    assert b == |ref|;
    assert Trim(s) == s[..|ref|] == ref;
    UpstreamTestBeforeTrim(s);
  }

  /** Validation happens first, in the order `main` performs it, and only a
      ready run with a working repository gets as far as submitting. */
  lemma PlanValidation(env: map<string, string>, argv: seq<string>, io: GitIo)
    ensures MissingConfigs(env) != [] ==> RunPlan(env, argv, io) == Stop(ConfigMissing(MissingConfigs(env)))
    ensures MissingConfigs(env) == [] && |argv| <= 2 ==> RunPlan(env, argv, io) == Stop(NoPatchFlag)
    ensures MissingConfigs(env) == [] && |argv| > 2 && argv[2] != "local" && argv[2] != "commit" ==>
      RunPlan(env, argv, io) == Stop(InvalidPatchFlag)
    ensures Ready(env, argv) && FirstFailedStep(io).Some? ==>
      RunPlan(env, argv, io) == Stop(StepFailed(FirstFailedStep(io).value))
    ensures RunPlan(env, argv, io).Submit? ==> Ready(env, argv) && FirstFailedStep(io).None?
  {
  }

  /** Commit mode: a failing `git cherry` and an empty commit list stop the
      run; otherwise the patch is always the range between two undefined
      commits. */
  lemma PlanCommitMode(env: map<string, string>, argv: seq<string>, io: GitIo)
    requires Ready(env, argv) && FirstFailedStep(io).None? && argv[2] == "commit"
    ensures io.cherry.Failure? ==> RunPlan(env, argv, io) == Stop(StepFailed(GitCommits))
    ensures io.cherry.Success? && UnpushedCommits(io.cherry.stdout) == [] ==> RunPlan(env, argv, io) == Stop(NothingToStage)
    ensures io.cherry.Success? && UnpushedCommits(io.cherry.stdout) != [] ==>
      var range := RangeDiff("undefined", "undefined");
      RunPlan(env, argv, io) == Stop(PatchFailed(range))
      || (RunPlan(env, argv, io).Submit? && RunPlan(env, argv, io).strategy == range)
  {
  }

  /** Local mode: the working tree is diffed against the trimmed upstream
      name, submodules ignored. */
  lemma PlanLocalMode(env: map<string, string>, argv: seq<string>, io: GitIo)
    requires Ready(env, argv) && FirstFailedStep(io).None? && argv[2] == "local"
    ensures var local := DiffAgainst(ResolvedUpstreamName(io.upstreamRef.stdout), true);
      RunPlan(env, argv, io) == Stop(PatchFailed(local))
      || (RunPlan(env, argv, io).Submit? && RunPlan(env, argv, io).strategy == local)
  {
  }

  /** A run stops on its patch exactly when the chosen diff cannot be
      materialised. */
  lemma PlanPatchFailure(env: map<string, string>, argv: seq<string>, io: GitIo)
    ensures RunPlan(env, argv, io).Stop? && RunPlan(env, argv, io).outcome.PatchFailed? ==>
      MaterializePatch(io.patch(RunPlan(env, argv, io).outcome.strategy)).Rejected?
    ensures RunPlan(env, argv, io).Submit? ==>
      MaterializePatch(io.patch(RunPlan(env, argv, io).strategy)) == Resolved(RunPlan(env, argv, io).payload.patch)
  {
  }

  /** What a submitted job carries: a GitHub push payload for the remote's
      repository and the branch chosen by `BranchNameForPayload`, owned by
      the git user, with the head sentinel; titled after the user and the
      repository. */
  lemma PlanSubmission(env: map<string, string>, argv: seq<string>, io: GitIo)
    requires RunPlan(env, argv, io).Submit?
    ensures FirstFailedStep(io).None?
    ensures var plan := RunPlan(env, argv, io);
      && IsGithubPushPayload(plan.payload)
      && plan.payload.repoName == GetRepoName(io.remoteUrl.stdout)
      && plan.payload.branchName == BranchNameForPayload(io)
      && plan.payload.repoOwner == io.user.stdout && plan.user == io.user.stdout
      && plan.email == io.email.stdout
      && plan.payload.url == io.remoteUrl.stdout
      && plan.payload.newHead == NewHead
      && plan.title == JobTitle(io.user.stdout, GetRepoName(io.remoteUrl.stdout))
  {
  }

  /** The build size argument never changes what a run does. */
  lemma BuildSizeIgnored(env: map<string, string>, argv: seq<string>, io: GitIo)
    requires |argv| >= 3
    ensures RunPlan(env, argv, io) == RunPlan(env, argv[..3], io)
  {
    assert argv[..3][2] == argv[2];
  }

  /** As written, the commit range is looked up with the keys "0" and "1",
      which the object does not have: the strategy is the range between two
      undefined commits for every list of unpushed commits, a single commit
      included. */
  lemma AsWrittenCommitStrategy(hs: seq<string>)
    requires |hs| >= 1 && forall k :: 0 <= k < |hs| ==> IsCommitId(hs[k])
    ensures UnpushedCommits(CherryOutput(hs)) == hs
    ensures var range := CommitRangeOf(UnpushedCommits(CherryOutput(hs)));
            CommitsPatchStrategy(Property(range, "0"), Property(range, "1")) == RangeDiff("undefined", "undefined")
  {
    CherryRoundTrip(hs);
  }

  /** With the lookups by the object's own keys, one unpushed commit is
      shown on its own and several are diffed from the parent of the first
      to the last. */
  lemma IntendedCommitStrategy(hs: seq<string>)
    requires |hs| >= 1 && forall k :: 0 <= k < |hs| ==> IsCommitId(hs[k])
    ensures UnpushedCommits(CherryOutput(hs)) == hs
    ensures var range := CommitRangeOf(UnpushedCommits(CherryOutput(hs)));
            var s := CommitsPatchStrategy(Property(range, "firstCommit"), Property(range, "lastCommit"));
            && (|hs| == 1 <==> s == ShowHead)
            && (|hs| >= 2 ==> s == RangeDiff(hs[0], Last(hs)))
  {
    CherryRoundTrip(hs);
  }
}
