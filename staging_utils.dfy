/** The decision logic of the staging helpers: deriving the repository name
    and the upstream name from git's text, parsing `git cherry`, choosing the
    diff to materialise as the patch, classifying the exit codes of the two
    upstream checks, building the job payload and validating the queue-store
    configuration. Every git or file-system call is an input value: the text
    the command printed, or the exit code it failed with. */
module StagingUtils {
  import opened Wrappers
  import opened JsStrings

  // ---------------------------------------------------------------------------
  // External results
  // ---------------------------------------------------------------------------

  /** What running one shell command yielded: its standard output, or the
      `code` of the error object (the exit status of the failed command). */
  datatype ExecResult = Success(stdout: string) | Failure(code: int)

  /** Why a step's promise was rejected or its exception thrown. */
  datatype StepError =
    | NoUpstreamGuidance    // the "set an upstream with git branch -u" message
    | ExecError(code: int)  // a command's own error, rethrown unchanged
    | PatchReadError        // the patch file could not be read back

  /** The settled state of a step: resolved with a value, or rejected. */
  datatype Outcome<T> = Resolved(value: T) | Rejected(error: StepError)

  /** The JavaScript values a commit identifier can take in this program. */
  datatype JsValue = Undefined | Null | Str(s: string)

  /** How a value prints inside a template literal. */
  function JsText(v: JsValue): (t: string)
    ensures v.Str? ==> t == v.s
  {
    match v
    case Undefined => "undefined"
    case Null => "null"
    case Str(s) => s
  }

  // ---------------------------------------------------------------------------
  // getRepoName
  // ---------------------------------------------------------------------------

  /** The repository name in a remote URL: the last `/`-separated segment,
      with the first ".git" and then the first "\n" removed. */
  function GetRepoName(url: string): (name: string)
    ensures '/' !in name
    ensures |name| <= |url|
  {
    var segments := Split(url, '/');
    JoinSplit(url, '/');
    JoinLongest(segments, '/');
    var repoName := Last(segments);
    var noGit := ReplaceFirst(repoName, ".git", "");
    ReplaceFirst(noGit, "\n", "")
  }

  /** Every piece is at most as long as the joined text. */
  lemma {:induction false} JoinLongest(parts: seq<string>, sep: char)
    requires |parts| >= 1
    ensures |Last(parts)| <= |Join(parts, sep)|
    decreases |parts|
  {
    if |parts| > 1 {
      JoinLongest(parts[1..], sep);
      assert Last(parts[1..]) == Last(parts);
    }
  }

  /** For a remote URL of the usual shape `<prefix>/<name>.git\n` the name
      comes back, provided the name itself holds no "/", no line break and no
      ".git". */
  lemma RepoNameOfRemote(prefix: string, name: string)
    requires '/' !in name && '\n' !in name && !Contains(name, ".git")
    ensures GetRepoName(prefix + "/" + name + ".git\n") == name
  {
    var segment := name + ".git\n";
    assert '/' !in segment by {
      assert forall c :: c in segment ==> c in name || c in ".git\n";
    }
    assert prefix + "/" + name + ".git\n" == prefix + ['/'] + segment;
    SplitLastPiece(prefix, '/', segment);
    GitRemovedAfterName(name);
    BreakRemovedAfterName(name);
  }

  /** The first ".git" of `<name>.git\n` is the suffix when the name holds none. */
  lemma GitRemovedAfterName(name: string)
    requires !Contains(name, ".git")
    ensures ReplaceFirst(name + ".git\n", ".git", "") == name + "\n"
  {
    GitRemovedBefore(name, "\n");
    assert name + ".git" + "\n" == name + ".git\n";
  }

  /** The first line break of `<name>\n` is the last character when the name holds none. */
  lemma BreakRemovedAfterName(name: string)
    requires '\n' !in name
    ensures ReplaceFirst(name + "\n", "\n", "") == name
  {
    ReplaceFirstAfterCharFree(name, "\n", "", "");
    assert name + "\n" + "" == name + "\n";
    assert name + "" + "" == name;
  }

  /** In general the name is the last "/"-separated segment with its first
      ".git" and then its first line break removed. */
  lemma RepoNameOfSegment(prefix: string, segment: string)
    requires '/' !in segment
    ensures GetRepoName(prefix + "/" + segment) == ReplaceFirst(ReplaceFirst(segment, ".git", ""), "\n", "")
  {
    assert prefix + "/" + segment == prefix + ['/'] + segment;
    SplitLastPiece(prefix, '/', segment);
  }

  /** A URL without any "/" is a segment on its own. */
  lemma RepoNameWithoutSlash(url: string)
    requires '/' !in url
    ensures GetRepoName(url) == ReplaceFirst(ReplaceFirst(url, ".git", ""), "\n", "")
  {
    SplitWithoutSep(url, '/');
  }

  /** The URL `main` actually passes has no line break any more (the wrapper
      removed it): `<prefix>/<name>.git` gives the name back. */
  lemma RepoNameOfBareRemote(prefix: string, name: string)
    requires '/' !in name && '\n' !in name && !Contains(name, ".git")
    ensures GetRepoName(prefix + "/" + name + ".git") == name
  {
    var segment := name + ".git";
    assert '/' !in segment by {
      assert forall c :: c in segment ==> c in name || c in ".git";
    }
    RepoNameOfSegment(prefix, segment);
    assert prefix + "/" + name + ".git" == prefix + "/" + segment;
    GitRemovedBefore(name, "");
    assert name + ".git" + "" == segment;
    assert ReplaceFirst(segment, ".git", "") == name;
    MissingCharNotContained(name, "\n", 0);
  }

  /** The first ".git" after a name holding none is the one removed. */
  lemma GitRemovedBefore(name: string, tail: string)
    requires !Contains(name, ".git")
    ensures ReplaceFirst(name + ".git" + tail, ".git", "") == name + tail
  {
    var pat := ".git";
    assert forall k :: 0 < k < |pat| ==> pat[k] != pat[0];
    ReplaceFirstAfterFree(name, pat, "", tail);
    assert name + "" + tail == name + tail;
  }

  /** A URL without ".git", such as `https://host/org/docs`, gives its last
      segment unchanged. */
  lemma RepoNameWithoutGitSuffix(prefix: string, name: string)
    requires '/' !in name && '\n' !in name && !Contains(name, ".git")
    ensures GetRepoName(prefix + "/" + name) == name
  {
    RepoNameOfSegment(prefix, name);
    MissingCharNotContained(name, "\n", 0);
  }

  /** A typical SSH remote URL, as `git config` prints it. */
  lemma RepoNameExample(url: string)
    requires url == "git@host:org/my-repo.git\n"
    ensures GetRepoName(url) == "my-repo"
  {
    var name := "my-repo";
    MissingCharNotContained(name, ".git", 0);
    assert url == "git@host:org" + "/" + name + ".git\n";
    RepoNameOfRemote("git@host:org", name);
  }

  /** As written, the first ".git" anywhere in the segment is removed, not the
      ".git" suffix: a GitHub Pages repository keeps its suffix and loses an
      inner ".git". */
  lemma RepoNameDropsInnerGit(url: string)
    requires url == "org/my.github.io.git"
    ensures GetRepoName(url) == "myhub.io.git"
  {
    InnerGitExample(url, "org", "my", "hub.io.git", "myhub.io.git");
  }

  /** The same example with its pieces passed as parameters. Inside this
      lemma the solver reasons about them as opaque strings tied to their
      literals only by the requires, which is far cheaper than taking the
      literal URL apart character by character in one proof. */
  lemma InnerGitExample(url: string, prefix: string, head: string, tail: string, name: string)
    requires url == "org/my.github.io.git" && name == "myhub.io.git"
    requires prefix == "org" && head == "my" && tail == "hub.io.git"
    ensures GetRepoName(url) == name
  {
    assert url == prefix + "/" + head + ".git" + tail;
    assert name == head + tail;
    RepoNameWithInnerGit(prefix, head, tail);
  }

  /** The general shape of that example: with no "." before the inner
      ".git", the name loses the inner ".git" and keeps the rest. */
  lemma RepoNameWithInnerGit(prefix: string, head: string, tail: string)
    requires '.' !in head && '/' !in head && '/' !in tail && '\n' !in head && '\n' !in tail
    ensures GetRepoName(prefix + "/" + head + ".git" + tail) == head + tail
  {
    var segment := head + ".git" + tail;
    assert '/' !in segment by {
      assert forall c :: c in segment ==> c in head || c in ".git" || c in tail;
    }
    assert prefix + "/" + head + ".git" + tail == prefix + ['/'] + segment;
    SplitLastPiece(prefix, '/', segment);
    InnerGitReplaced(head, tail);
    assert '\n' !in head + tail by {
      assert forall c :: c in head + tail ==> c in head || c in tail;
    }
    MissingCharNotContained(head + tail, "\n", 0);
  }

  /** The first ".git" goes even when another one ends the text. */
  lemma InnerGitReplaced(head: string, tail: string)
    requires '.' !in head
    ensures ReplaceFirst(head + ".git" + tail, ".git", "") == head + tail
  {
    ReplaceFirstAfterCharFree(head, ".git", "", tail);
    assert head + "" + tail == head + tail;
  }

  /** The name with a trailing ".git" suffix stripped: the last segment with a
      trailing line break and then a trailing ".git" suffix removed. */
  function RepoNameStrippingSuffix(url: string): (name: string)
    ensures '/' !in name
  {
    var segment := Last(Split(url, '/'));
    var line := if |segment| >= 1 && segment[|segment| - 1] == '\n' then segment[..|segment| - 1] else segment;
    assert forall c :: c in line ==> c in segment;
    var name := if |line| >= 4 && line[|line| - 4..] == ".git" then line[..|line| - 4] else line;
    assert forall c :: c in name ==> c in line;
    name
  }

  /** Stripping the suffix recovers every name that holds no "/", whatever
      else it contains. */
  lemma RepoNameStrippingSuffixRecovers(prefix: string, name: string)
    requires '/' !in name
    ensures RepoNameStrippingSuffix(prefix + "/" + name + ".git\n") == name
    ensures RepoNameStrippingSuffix(prefix + "/" + name + ".git") == name
  {
    var segment := name + ".git\n";
    assert '/' !in segment by {
      assert forall c :: c in segment ==> c in name || c in ".git\n";
    }
    assert prefix + "/" + name + ".git\n" == prefix + ['/'] + segment;
    SplitLastPiece(prefix, '/', segment);
    assert segment[..|segment| - 1] == name + ".git";
    var bare := name + ".git";
    assert '/' !in bare by {
      assert forall c :: c in bare ==> c in name || c in ".git";
    }
    assert prefix + "/" + name + ".git" == prefix + ['/'] + bare;
    SplitLastPiece(prefix, '/', bare);
    assert bare[|bare| - 1] != '\n';
    assert bare[|bare| - 4..] == ".git" && bare[..|bare| - 4] == name;
  }

  // ---------------------------------------------------------------------------
  // getUpstreamName
  // ---------------------------------------------------------------------------

  /** The branch the payload should name for a tracking ref: "master" for any
      ref of the `origin` remote, otherwise the ref text itself. */
  function GetUpstreamName(upstream: string): (name: string)
    ensures Contains(upstream, "origin/") ==> name == "master"
    ensures !Contains(upstream, "origin/") ==> name == upstream
  {
    if IndexOf(upstream, "origin/") == -1 then upstream else "master"
  }

  // ---------------------------------------------------------------------------
  // getGitCommits
  // ---------------------------------------------------------------------------

  /** The commit list `getGitCommits` works on: every "+ " removed from the
      output of `git cherry`, the rest split into lines and the last line
      (the empty one after the final line break) popped. */
  function UnpushedCommits(stdout: string): (commits: seq<string>)
    ensures forall k, c :: 0 <= k < |commits| && c in commits[k] ==> !IsLineBreak(c)
    ensures stdout == "" ==> commits == []
  {
    var lines := SplitLines(RemoveAll(stdout, "+ "));
    lines[..|lines| - 1]
  }

  predicate IsHexDigit(c: char) {
    '0' <= c <= '9' || 'a' <= c <= 'f' || 'A' <= c <= 'F'
  }

  /** A commit identifier as git prints it: a non-empty run of hex digits. */
  predicate IsCommitId(h: string) {
    h != [] && forall c :: c in h ==> IsHexDigit(c)
  }

  /** What `git cherry` prints for the unpushed commits `hs`, oldest first:
      one "+ <id>" line each. */
  function CherryOutput(hs: seq<string>): string
    decreases |hs|
  {
    if hs == [] then "" else "+ " + hs[0] + "\n" + CherryOutput(hs[1..])
  }

  /** The same lines with their "+ " markers removed. */
  function BareLines(hs: seq<string>): string
    decreases |hs|
  {
    if hs == [] then "" else hs[0] + "\n" + BareLines(hs[1..])
  }

  lemma {:induction false} RemoveMarkers(hs: seq<string>)
    requires forall k :: 0 <= k < |hs| ==> IsCommitId(hs[k])
    ensures RemoveAll(CherryOutput(hs), "+ ") == BareLines(hs)
    decreases |hs|
  {
    if hs != [] {
      var line := hs[0] + "\n";
      var rest := CherryOutput(hs[1..]);
      var s := CherryOutput(hs);
      assert s == "+ " + (line + rest);
      assert s[..2] == "+ " && s[2..] == line + rest;
      assert IsCommitId(hs[0]);
      assert '+' !in line by {
        assert forall c :: c in line ==> c in hs[0] || c == '\n';
      }
      RemoveAllKeeps(line, rest, "+ ");
      RemoveMarkers(hs[1..]);
      assert line + BareLines(hs[1..]) == BareLines(hs);
    }
  }

  lemma {:induction false} SplitBareLines(hs: seq<string>)
    requires forall k :: 0 <= k < |hs| ==> IsCommitId(hs[k])
    ensures SplitLines(BareLines(hs)) == hs + [""]
    decreases |hs|
  {
    if hs != [] {
      assert IsCommitId(hs[0]);
      assert forall c :: c in hs[0] ==> !IsLineBreak(c);
      SplitLinesLine(hs[0], BareLines(hs[1..]));
      SplitBareLines(hs[1..]);
      assert [hs[0]] + (hs[1..] + [""]) == hs + [""];
    }
  }

  /** Parsing what `git cherry` prints gives back the unpushed commits, in
      order: the first element is the oldest and the last the newest. */
  lemma CherryRoundTrip(hs: seq<string>)
    requires forall k :: 0 <= k < |hs| ==> IsCommitId(hs[k])
    ensures UnpushedCommits(CherryOutput(hs)) == hs
  {
    RemoveMarkers(hs);
    SplitBareLines(hs);
    assert (hs + [""])[..|hs|] == hs;
  }

  /** The `{firstCommit, lastCommit}` object `getGitCommits` returns;
      `lastCommit` is null when there is exactly one unpushed commit. */
  datatype CommitRange = CommitRange(firstCommit: string, lastCommit: JsValue)

  /** How `getGitCommits` ends: its rethrown error, the `process.exit()` for an
      empty list, or the range. */
  datatype CommitsResult =
    | CherryFailed(code: int)
    | NoUnpushedCommits
    | Unpushed(range: CommitRange)

  /** The object `getGitCommits` returns for a non-empty commit list: the
      first commit, and the last one or null when there is only one. */
  function CommitRangeOf(commits: seq<string>): (range: CommitRange)
    requires |commits| >= 1
    ensures range.firstCommit == commits[0]
    ensures range.lastCommit == Null <==> |commits| == 1
    ensures range.lastCommit != Null ==> range.lastCommit == Str(Last(commits))
  {
    if |commits| == 1 then CommitRange(commits[0], Null) else CommitRange(commits[0], Str(Last(commits)))
  }

  /** Runs the parse on the result of `git cherry` and classifies the list:
      none, exactly one (with a null last commit), or first and last. */
  method GetGitCommits(cherry: ExecResult) returns (r: CommitsResult)
    ensures cherry.Failure? ==> r == CherryFailed(cherry.code)
    ensures cherry.Success? && UnpushedCommits(cherry.stdout) == [] ==> r == NoUnpushedCommits
    ensures cherry.Success? && UnpushedCommits(cherry.stdout) != [] ==>
      r == Unpushed(CommitRangeOf(UnpushedCommits(cherry.stdout)))
  {
    if cherry.Failure? {
      return CherryFailed(cherry.code);
    }
    var cleanedup := RemoveAll(cherry.stdout, "+ ");
    var commitarray := SplitLines(cleanedup);
    commitarray := commitarray[..|commitarray| - 1];  // pop the empty last element
    if |commitarray| == 0 {
      return NoUnpushedCommits;
    }
    if |commitarray| == 1 {
      r := Unpushed(CommitRange(commitarray[0], Null));
    } else {
      r := Unpushed(CommitRange(commitarray[0], Str(commitarray[|commitarray| - 1])));
    }
  }

  // ---------------------------------------------------------------------------
  // getGitPatchFromCommits / getGitPatchFromLocal
  // ---------------------------------------------------------------------------

  /** The diff that becomes the patch. */
  datatype PatchStrategy =
    | ShowHead                                          // git show HEAD
    | RangeDiff(first: string, last: string)            // git diff <first>^...<last>
    | DiffAgainst(base: string, ignoreSubmodules: bool)  // git diff <base> [--ignore-submodules]

  /** The strategy `getGitPatchFromCommits` picks: the HEAD commit exactly
      when `lastCommit` is null; for every other value, `undefined` included,
      the range from the parent of the first commit to the last one, with both
      values printed as a template literal prints them. */
  function CommitsPatchStrategy(firstCommit: JsValue, lastCommit: JsValue): (s: PatchStrategy)
    ensures s == ShowHead <==> lastCommit == Null
    ensures s != ShowHead ==> s.RangeDiff? && s.first == JsText(firstCommit) && s.last == JsText(lastCommit)
  {
    if lastCommit == Null then ShowHead else RangeDiff(JsText(firstCommit), JsText(lastCommit))
  }

  /** The strategy `getGitPatchFromLocal` picks: the working tree against the
      given upstream name, submodule changes ignored. */
  function LocalPatchStrategy(upstreamBranchName: string): (s: PatchStrategy)
    ensures s.DiffAgainst? && s.ignoreSubmodules
    ensures s.base == upstreamBranchName
  {
    DiffAgainst(upstreamBranchName, true)
  }

  /** What git and the file system did when a strategy was materialised:
      the redirected diff command's result, then reading the patch file back. */
  datatype PatchIo = PatchIo(diff: ExecResult, read: Option<string>)

  /** The patch promise: rejected when the diff command failed or the file
      could not be read, otherwise resolved with the file's text. */
  function MaterializePatch(io: PatchIo): (r: Outcome<string>)
    ensures r.Resolved? <==> io.diff.Success? && io.read.Some?
    ensures r.Resolved? ==> r.value == io.read.value
    ensures io.diff.Failure? ==> r == Rejected(ExecError(io.diff.code))
  {
    if io.diff.Failure? then Rejected(ExecError(io.diff.code))
    else if io.read.None? then Rejected(PatchReadError)
    else Resolved(io.read.value)
  }

  /** `getGitPatchFromCommits`, with `git` standing for what each strategy
      yields when it is run. */
  function GetGitPatchFromCommits(firstCommit: JsValue, lastCommit: JsValue, git: PatchStrategy -> PatchIo): (r: Outcome<string>)
    ensures var io := git(CommitsPatchStrategy(firstCommit, lastCommit));
      && (r.Resolved? <==> io.diff.Success? && io.read.Some?)
      && (r.Resolved? ==> io.read == Some(r.value))
      && (io.diff.Failure? ==> r == Rejected(ExecError(io.diff.code)))
      && (io.diff.Success? && io.read.None? ==> r == Rejected(PatchReadError))
    ensures lastCommit == Null ==> r == MaterializePatch(git(ShowHead))
    ensures lastCommit != Null ==> r == MaterializePatch(git(RangeDiff(JsText(firstCommit), JsText(lastCommit))))
  {
    MaterializePatch(git(CommitsPatchStrategy(firstCommit, lastCommit)))
  }

  /** `getGitPatchFromLocal`, with `git` as above. */
  function GetGitPatchFromLocal(upstreamBranchName: string, git: PatchStrategy -> PatchIo): (r: Outcome<string>)
    ensures var io := git(DiffAgainst(upstreamBranchName, true));
      && (r.Resolved? <==> io.diff.Success? && io.read.Some?)
      && (r.Resolved? ==> io.read == Some(r.value))
      && (io.diff.Failure? ==> r == Rejected(ExecError(io.diff.code)))
      && (io.diff.Success? && io.read.None? ==> r == Rejected(PatchReadError))
  {
    MaterializePatch(git(LocalPatchStrategy(upstreamBranchName)))
  }

  // ---------------------------------------------------------------------------
  // checkUpstreamConfiguration / doesRemoteHaveLocalBranch
  // ---------------------------------------------------------------------------

  /** The exit status git uses for a fatal error such as an unknown ref. */
  const FatalExitCode := 128

  /** Classifies `git rev-parse ... <branch>@{upstream}`: its raw output on
      success, the set-an-upstream guidance on 128, the error itself otherwise. */
  function CheckUpstreamConfiguration(revParse: ExecResult): (r: Outcome<string>)
    ensures r.Resolved? <==> revParse.Success?
    ensures r.Resolved? ==> r.value == revParse.stdout
    ensures r == Rejected(NoUpstreamGuidance) <==> revParse == Failure(FatalExitCode)
    ensures revParse.Failure? && revParse.code != FatalExitCode ==> r == Rejected(ExecError(revParse.code))
  {
    match revParse
    case Success(stdout) => Resolved(stdout)
    case Failure(code) =>
      if code == FatalExitCode then Rejected(NoUpstreamGuidance) else Rejected(ExecError(code))
  }

  /** Classifies `git diff <branch> remotes/origin/<branch>`: true on
      success, false on 128 (the remote branch is missing), the error itself
      otherwise. */
  function DoesRemoteHaveLocalBranch(diff: ExecResult): (r: Outcome<bool>)
    ensures r.Resolved? <==> diff.Success? || diff.code == FatalExitCode
    ensures r.Resolved? ==> (r.value <==> diff.Success?)
    ensures diff.Failure? && diff.code != FatalExitCode ==> r == Rejected(ExecError(diff.code))
  {
    match diff
    case Success(_) => Resolved(true)
    case Failure(code) =>
      if code == FatalExitCode then Resolved(false) else Rejected(ExecError(code))
  }

  /** Exit code 128 is read in opposite ways by the two checks; any other
      failure is rethrown by both alike. */
  lemma ExitCodeReadings(code: int)
    ensures code == FatalExitCode ==>
      CheckUpstreamConfiguration(Failure(code)).Rejected? && DoesRemoteHaveLocalBranch(Failure(code)) == Resolved(false)
    ensures code != FatalExitCode ==>
      && CheckUpstreamConfiguration(Failure(code)) == Rejected(ExecError(code))
      && DoesRemoteHaveLocalBranch(Failure(code)) == Rejected(ExecError(code))
  {
  }

  // ---------------------------------------------------------------------------
  // createPayload
  // ---------------------------------------------------------------------------

  /** The job description submitted to the queue; also the key deduplication
      compares. (`isPrivate` is the `private` property.) */
  datatype Payload = Payload(
    jobType: string,
    source: string,
    action: string,
    repoName: string,
    branchName: string,
    isFork: bool,
    isPrivate: bool,
    isXlarge: bool,
    repoOwner: string,
    url: string,
    newHead: string,
    patch: string)

  /** The constant part every payload of this tool carries. */
  predicate IsGithubPushPayload(p: Payload) {
    p.jobType == "githubPush" && p.source == "github" && p.action == "push"
    && p.isFork && !p.isPrivate && !p.isXlarge
  }

  /** `createPayload`: the constants plus the arguments, with `buildSize`
      accepted and unused. */
  function CreatePayload(repoName: string, branchName: string, repoOwner: string, url: string,
                         patch: string, buildSize: Option<string>, lastCommit: string): (p: Payload)
    ensures IsGithubPushPayload(p)
    ensures p.repoName == repoName && p.branchName == branchName && p.repoOwner == repoOwner
    ensures p.url == url && p.newHead == lastCommit && p.patch == patch
  {
    Payload("githubPush", "github", "push", repoName, branchName, true, false, false,
            repoOwner, url, lastCommit, patch)
  }

  /** Two payloads are the same job exactly when they were built from the
      same repository, branch, owner, URL, head and patch; the build size never
      tells them apart. */
  lemma PayloadIdentity(repoName: string, branchName: string, repoOwner: string, url: string, patch: string, lastCommit: string,
                        repoName': string, branchName': string, repoOwner': string, url': string, patch': string, lastCommit': string,
                        buildSize: Option<string>, buildSize': Option<string>)
    ensures CreatePayload(repoName, branchName, repoOwner, url, patch, buildSize, lastCommit)
         == CreatePayload(repoName', branchName', repoOwner', url', patch', buildSize', lastCommit')
        <==> (repoName, branchName, repoOwner, url, patch, lastCommit) == (repoName', branchName', repoOwner', url', patch', lastCommit')
  {
  }

  // ---------------------------------------------------------------------------
  // validateConfiguration
  // ---------------------------------------------------------------------------

  /** The environment variables the queue store needs, in the order they are checked. */
  const RequiredConfigs: seq<string> := ["DB_NAME", "COL_NAME", "USERNAME", "SECRET"]

  /** A variable is missing when it is unset or set to the empty string. */
  predicate IsMissing(env: map<string, string>, name: string) {
    name !in env || env[name] == ""
  }

  /** The names in `names` that are missing from `env`, in the order of `names`. */
  function MissingAmong(names: seq<string>, env: map<string, string>): seq<string>
    decreases |names|
  {
    if names == [] then []
    else (if IsMissing(env, names[0]) then [names[0]] else []) + MissingAmong(names[1..], env)
  }

  /** The list `validateConfiguration` reports. */
  function MissingConfigs(env: map<string, string>): seq<string> {
    MissingAmong(RequiredConfigs, env)
  }

  /** `xs` is `ys` with some elements left out, the rest kept in order. */
  predicate IsSubsequence(xs: seq<string>, ys: seq<string>)
    decreases |ys|
  {
    if xs == [] then true
    else if ys == [] then false
    else if xs[0] == ys[0] then IsSubsequence(xs[1..], ys[1..])
    else IsSubsequence(xs, ys[1..])
  }

  /** A name is listed exactly when it is required and missing, and the list
      keeps the order of the names checked. */
  lemma {:induction false} MissingAmongSpec(names: seq<string>, env: map<string, string>)
    ensures forall n :: n in MissingAmong(names, env) <==> n in names && IsMissing(env, n)
    ensures IsSubsequence(MissingAmong(names, env), names)
    decreases |names|
  {
    if names != [] {
      MissingAmongSpec(names[1..], env);
      var rest := MissingAmong(names[1..], env);
      assert forall n :: n in names <==> n == names[0] || n in names[1..];
      if IsMissing(env, names[0]) {
        assert MissingAmong(names, env) == [names[0]] + rest;
        assert ([names[0]] + rest)[1..] == rest;
      } else {
        assert MissingAmong(names, env) == rest;
        SubsequenceOfTail(rest, names);
      }
    }
  }

  /** A subsequence of the tail is a subsequence of the whole. */
  lemma {:induction false} SubsequenceOfTail(xs: seq<string>, ys: seq<string>)
    requires ys != [] && IsSubsequence(xs, ys[1..])
    ensures IsSubsequence(xs, ys)
    decreases |ys|, |xs|, 1
  {
    if xs != [] && xs[0] == ys[0] {
      SubsequenceDropHead(xs, ys[1..]);
    }
  }

  /** Leaving out the first element keeps a subsequence. */
  lemma {:induction false} SubsequenceDropHead(xs: seq<string>, ys: seq<string>)
    requires xs != [] && IsSubsequence(xs, ys)
    ensures IsSubsequence(xs[1..], ys)
    decreases |ys|, |xs|, 0
  {
    if xs[0] == ys[0] {
      if xs[1..] != [] {
        SubsequenceOfTail(xs[1..], ys);
      }
    } else {
      SubsequenceDropHead(xs, ys[1..]);
      if xs[1..] != [] {
        SubsequenceOfTail(xs[1..], ys);
      }
    }
  }

  /** `[name]` when `name` is missing, otherwise nothing. */
  function Pick(env: map<string, string>, name: string): seq<string> {
    if IsMissing(env, name) then [name] else []
  }

  /** One check, then the rest. */
  lemma MissingAmongCons(name: string, rest: seq<string>, env: map<string, string>)
    ensures MissingAmong([name] + rest, env) == Pick(env, name) + MissingAmong(rest, env)
  {
    assert ([name] + rest)[1..] == rest;
  }

  /** The missing names among four, check by check. */
  lemma MissingAmongFour(a: string, b: string, c: string, d: string, env: map<string, string>)
    ensures MissingAmong([a, b, c, d], env) == Pick(env, a) + Pick(env, b) + Pick(env, c) + Pick(env, d)
  {
    MissingAmongCons(d, [], env);
    assert [d] + [] == [d];
    MissingAmongCons(c, [d], env);
    assert [c] + [d] == [c, d];
    MissingAmongCons(b, [c, d], env);
    assert [b] + [c, d] == [b, c, d];
    MissingAmongCons(a, [b, c, d], env);
    assert [a] + [b, c, d] == [a, b, c, d];
  }

  /** The reported list, check by check. */
  lemma MissingConfigsUnrolled(env: map<string, string>)
    ensures MissingConfigs(env)
         == Pick(env, "DB_NAME") + Pick(env, "COL_NAME") + Pick(env, "USERNAME") + Pick(env, "SECRET")
  {
    MissingAmongFour("DB_NAME", "COL_NAME", "USERNAME", "SECRET", env);
  }

  /** The configuration check: the missing names, in the fixed order, and
      whether the run terminates (exactly when some name is missing). */
  method ValidateConfiguration(env: map<string, string>) returns (missingConfigs: seq<string>, exits: bool)
    ensures missingConfigs == MissingConfigs(env)
    ensures forall n :: n in missingConfigs <==> n in RequiredConfigs && IsMissing(env, n)
    ensures exits <==> missingConfigs != []
  {
    missingConfigs := [];
    if "DB_NAME" !in env || env["DB_NAME"] == "" {
      missingConfigs := missingConfigs + ["DB_NAME"];
    }
    assert missingConfigs == Pick(env, "DB_NAME");
    if "COL_NAME" !in env || env["COL_NAME"] == "" {
      missingConfigs := missingConfigs + ["COL_NAME"];
    }
    assert missingConfigs == Pick(env, "DB_NAME") + Pick(env, "COL_NAME");
    if "USERNAME" !in env || env["USERNAME"] == "" {
      missingConfigs := missingConfigs + ["USERNAME"];
    }
    assert missingConfigs == Pick(env, "DB_NAME") + Pick(env, "COL_NAME") + Pick(env, "USERNAME");
    if "SECRET" !in env || env["SECRET"] == "" {
      missingConfigs := missingConfigs + ["SECRET"];
    }
    exits := |missingConfigs| != 0;
    MissingConfigsUnrolled(env);
    MissingAmongSpec(RequiredConfigs, env);
  }
}
