# Staging a build job from local git work

This project models the staging tool of `madelinezec/test-submodules` in Dafny and proves properties of the model.
The tool is a small command-line program. It turns a developer's unpushed commits or uncommitted changes into a patch. It then submits a "GitHub push" build job to a queue kept in a document store.
Two files make up the core:

- `stagingUtils.js` holds the string derivations, git exit-code rules, patch strategy, payload and job records, and the insert-if-absent upsert.
- `app.js` holds `main`, which chains those steps together and returns early whenever a step fails.

The model is split into five modules.

- `Wrappers` (`wrappers.dfy`): `Option`.
- `JsStrings` (`js_strings.dfy`): the JavaScript string built-ins the source relies on, as the source uses them. `replace` is modelled for a replacement without "$", which JavaScript would expand, and the source only passes "". Positions count characters where JavaScript counts UTF-16 code units, and the source only tests whether `indexOf` gives -1.
  - `indexOf`.
  - `replace` with a string pattern, which removes only the first occurrence.
  - A global removal of a literal.
  - `split` on a character.
  - `split(/\r\n|\r|\n/)`.
  - `trim`, over the ECMAScript white-space and line-terminator set.
- `StagingUtils` (`staging_utils.dfy`): the functions of `stagingUtils.js`.
  - Pure rules are functions.
  - `validateConfiguration` pushes onto an array, and `getGitCommits` pops from one, so both are methods.
  - Every git command, and reading the patch file, is an input. An `ExecResult` is either `Success(stdout)` or `Failure(code)`.
  - A promise is `Outcome` (`Resolved`/`Rejected`).
  - A JavaScript value that can be `undefined` or `null` is `JsValue`.
- `JobQueue` (`job_queue.dfy`): the job record `insertJob` builds, and the store's equality matching, including its rule for array-valued fields.
  - `updateOne(..., {$setOnInsert}, {upsert: true})` is a specification function `Upserted`.
  - The collection is a class `JobCollection` whose `records` field is changed in place by `UpdateOneSetOnInsert` and `InsertJob`.
- `App` (`app.dfy`): `main` as the method `Run`, over the environment, the argument vector, what each git command yields, the collection, the clock reading and whether the store can be reached.
  - `Run` is proved to follow the specification function `RunPlan`: it stops with the plan's outcome, or submits the plan's payload, and its effect on the collection and its enqueue report are those of `InsertJob` for that payload.
  - The orchestration properties are lemmas about `RunPlan`.

Where the code does something other than its comments and evident purpose suggest, the model follows the code:

- **`.git` in the repository name.** The name loses the first `.git` anywhere in the last path segment, not a trailing `.git` suffix (see Findings).
- **Trimming the upstream name.** The upstream name is computed from the untrimmed ref, and the result is trimmed afterwards. `App.UpstreamTestBeforeTrim` shows that the order makes no difference to the `origin/` test.
- **Empty upstream name.** A resolved upstream name is not promised to be non-empty. A ref made only of white space trims to the empty string.
- **Deduplication.** The queue deduplicates nothing as the filter is written (see Findings).

## Model

| member | source | states |
|---|---|---|
| JsStrings.IndexOf | stagingUtils.js:199 | `indexOf`: -1 exactly when the pattern does not occur; otherwise an occurrence with no earlier one |
| JsStrings.ReplaceFirst | stagingUtils.js:113-114 | `replace` with a string pattern: unchanged when the pattern is absent, otherwise one occurrence replaced (length changes by the difference), every character from the input or the replacement |
| JsStrings.RemoveAll | stagingUtils.js:174 | the global removal of "+ ": text without the marker is returned unchanged; text with it loses at least the marker's length; the result is never longer and every character comes from the input |
| JsStrings.RemoveAllDrops | stagingUtils.js:174 | a marker at the front is dropped and the scan continues in the rest, so every marker goes, not only the first |
| JsStrings.RemoveAllKeeps | stagingUtils.js:174 | removal passes a line without markers through unchanged and carries on after it |
| JsStrings.Split | stagingUtils.js:111 | `split("/")`: at least one piece, no piece contains the separator |
| JsStrings.JoinSplit | stagingUtils.js:111 | joining the pieces with the separator gives back the input |
| JsStrings.SplitLastPiece | stagingUtils.js:111-112 | the last piece of `prefix + "/" + name` is `name` when `name` has no "/" |
| JsStrings.SplitLines | stagingUtils.js:175 | `split(/\r\n|\r|\n/)`: no piece contains a line break |
| JsStrings.SplitLinesNoBreak | stagingUtils.js:175-176 | text without a line break is one piece, so the piece after the last break (empty for output ending in a break) is the one `pop` removes |
| JsStrings.SplitLinesLine | stagingUtils.js:175 | a line followed by "\n" is split off as one piece |
| JsStrings.SplitLinesCrLf | stagingUtils.js:175 | a line followed by "\r\n" is split off as one piece: the pair is a single break, with no empty piece between |
| JsStrings.SplitLinesCr | stagingUtils.js:175 | a line followed by a lone "\r" (not followed by "\n") is split off as one piece |
| JsStrings.Trim | app.js:81 | `trim`: an infix of the input, everything cut off is white space, the result neither starts nor ends with white space |
| JsStrings.TrimKeeps | app.js:81 | text that neither starts nor ends with white space is unchanged by `trim` |
| JsStrings.TrimKeepsOccurrences | app.js:81 | trimming neither creates nor destroys an occurrence of a pattern without white space |
| StagingUtils.GetRepoName | stagingUtils.js:107-116 | the repository name never contains "/" and is no longer than the URL |
| StagingUtils.RepoNameOfSegment | stagingUtils.js:107-116 | for any URL `prefix/segment` whose last segment has no "/", the name is the segment with its first ".git" and then its first line break removed |
| StagingUtils.RepoNameWithoutSlash | stagingUtils.js:107-116 | a URL without "/" is its own last segment: the name is the URL with its first ".git" and then its first line break removed |
| StagingUtils.RepoNameOfRemote | stagingUtils.js:107-116 | for `prefix/name.git\n` with a plain `name`, the result is `name` |
| StagingUtils.RepoNameOfBareRemote | stagingUtils.js:107-116 | for `prefix/name.git` without a line break and a plain `name`, the result is `name` |
| StagingUtils.GitRemovedBefore | stagingUtils.js:113 | removing the first ".git" from `name + ".git" + tail`, with no ".git" inside `name`, gives `name + tail` |
| StagingUtils.RepoNameWithoutGitSuffix | stagingUtils.js:107-116 | for `prefix/name` where `name` has no ".git" and no line break, the result is `name` |
| StagingUtils.RepoNameExample | stagingUtils.js:107-116 | `git@host:org/my-repo.git\n` gives `my-repo` |
| StagingUtils.RepoNameDropsInnerGit | stagingUtils.js:113 | as written, `org/my.github.io.git` gives `myhub.io.git` |
| StagingUtils.RepoNameWithInnerGit | stagingUtils.js:113 | as written, the first ".git" in the last segment is removed wherever it is |
| StagingUtils.RepoNameStrippingSuffix | stagingUtils.js:107-116 | corrected derivation: never contains "/" |
| StagingUtils.RepoNameStrippingSuffixRecovers | stagingUtils.js:107-116 | corrected derivation recovers `name` from `prefix/name.git\n` and `prefix/name.git` for any `name` without "/" |
| StagingUtils.GetUpstreamName | stagingUtils.js:198-206 | "master" when the ref contains "origin/", otherwise the ref unchanged |
| StagingUtils.UnpushedCommits | stagingUtils.js:173-176 | the commit list after removing markers, splitting and popping: no line breaks inside, empty for empty output |
| StagingUtils.CherryRoundTrip | stagingUtils.js:173-176 | for `git cherry` output listing commit ids `hs` ("+ id" per line), the parsed list is exactly `hs` |
| StagingUtils.CommitRangeOf | stagingUtils.js:183-191 | first commit is the first element; last commit is null exactly for a single commit, otherwise the last element |
| StagingUtils.GetGitCommits | stagingUtils.js:171-196 | a failing `git cherry` rejects with its code, an empty list stops the run, otherwise the range of the parsed list |
| StagingUtils.CommitsPatchStrategy | stagingUtils.js:269-305 | "show HEAD" exactly when the last commit is null; any other value (undefined included) gives the range diff of both values as a template literal prints them |
| StagingUtils.LocalPatchStrategy | stagingUtils.js:247-251 | a diff against exactly the given upstream name, submodules ignored |
| StagingUtils.MaterializePatch | stagingUtils.js:252-265 | resolved with the file's text exactly when the diff succeeded and the file was read; the diff's error otherwise |
| StagingUtils.GetGitPatchFromCommits | stagingUtils.js:269-305 | resolves exactly when the chosen diff succeeds and the file is read, with the text read; a failing diff rejects with its exit code, an unreadable file rejects; a null last commit runs "show HEAD", any other value the range diff |
| StagingUtils.GetGitPatchFromLocal | stagingUtils.js:247-268 | resolves exactly when the diff against the upstream name succeeds and the file is read, with the text read; a failing diff rejects with its exit code, an unreadable file rejects |
| StagingUtils.CheckUpstreamConfiguration | stagingUtils.js:208-228 | success yields the raw output; exit code 128 exactly yields the set-an-upstream guidance; any other code is rethrown |
| StagingUtils.DoesRemoteHaveLocalBranch | stagingUtils.js:230-245 | true on success, false on exit code 128, any other code rethrown |
| StagingUtils.ExitCodeReadings | stagingUtils.js:208-245 | code 128 is an error for one check and `false` for the other; any other code is rethrown by both |
| StagingUtils.CreatePayload | stagingUtils.js:67-92 | the constant fields of a GitHub push payload, the other fields copied from the arguments |
| StagingUtils.PayloadIdentity | stagingUtils.js:67-92 | two payloads are equal exactly when their copied arguments are; the build size never matters |
| StagingUtils.MissingAmongSpec | stagingUtils.js:308-322 | a name is listed exactly when it is required and unset or empty, in the order checked |
| StagingUtils.ValidateConfiguration | stagingUtils.js:308-329 | the list of missing settings in the fixed order DB_NAME, COL_NAME, USERNAME, SECRET; the run exits exactly when it is non-empty |
| JobQueue.NewJob | stagingUtils.js:13-27 | the new job is queued, unstarted, priority 1, no failures, no result, empty logs, with the given payload, title, user, email and time |
| JobQueue.AsWrittenFilterMeaning | stagingUtils.js:31 | as written, a record matches only if its status is the array `["inProgress", "inQueue"]` |
| JobQueue.IntendedFilterMeaning | stagingUtils.js:29-34 | the intended filter matches exactly the unfinished jobs with the payload |
| JobQueue.NewJobAgainstFilters | stagingUtils.js:13-34 | a new job is found by the intended filter and never by the filter as written |
| JobQueue.FindMatch | stagingUtils.js:43 | the first matching record, and none exactly when no record matches |
| JobQueue.Upserted | stagingUtils.js:31-43 | the collection is untouched when a record matches, otherwise the document is appended |
| JobQueue.AsWrittenAlwaysInserts | stagingUtils.js:31 | as written, every submission inserts |
| JobQueue.AsWrittenQueuesDuplicates | stagingUtils.js:31 | as written, submitting the same job twice leaves two unfinished copies |
| JobQueue.IntendedSecondSubmissionIsNoOp | stagingUtils.js:29-34 | with the intended filter, resubmitting while the first is unfinished changes nothing |
| JobQueue.IntendedUpsertKeepsAtMostOneUnfinished | stagingUtils.js:29-34 | the intended upsert keeps at most one unfinished job per payload |
| JobQueue.IntendedResubmitAfterFinish | stagingUtils.js:29-34 | once every job with the payload is finished, resubmitting inserts |
| JobQueue.IntendedSubmissionHistory | stagingUtils.js:29-53 | submit, resubmit while queued (no change), finish, resubmit (new record) |
| JobQueue.JobCollection.UpdateOneSetOnInsert | stagingUtils.js:43-53 | the new collection is `Upserted`; an id is returned exactly when nothing matched, and it is the new record's position |
| JobQueue.JobCollection.InsertJob | stagingUtils.js:7-65 | an unreachable store changes nothing and reports its error; otherwise the upsert with the as-written filter, reporting "already existed" when a record matched and otherwise the new record's id, its position at the end of the collection |
| App.Arg | app.js:5-6 | `process.argv[i]` is absent past the end of the vector |
| App.Property | app.js:104-105 | the object from `getGitCommits` has exactly the own properties `firstCommit` and `lastCommit`; a key that is neither of them nor inherited from `Object.prototype`, such as "0" or "1", gives undefined |
| App.ResolvedUpstreamName | app.js:81 | "master" for a ref containing "origin/", otherwise the trimmed ref |
| App.UpstreamTestBeforeTrim | app.js:81 | the "origin/" test gives the same answer before and after trimming |
| App.UpstreamNameOfOtherRemote | app.js:81 | a ref of another remote followed by a line break resolves to the ref itself |
| App.FirstFailedStep | app.js:44-91 | no step fails exactly when the user, email, URL, branch and upstream commands succeed and the remote-branch check succeeds or exits with 128; otherwise the reported step is the first failing one in the order user, email, URL, branch, upstream, remote branch |
| App.BranchNameForPayload | app.js:93 | the local branch when the remote has it, the resolved upstream name otherwise |
| App.Run | app.js:3-165 | the run stops exactly as its plan says without touching the queue; a submitted plan completes with the plan's strategy, payload and title, and its collection change and enqueue report are `InsertJob`'s for that payload and store; cleanup is reached exactly when the run completes |
| App.PlanValidation | app.js:18-91 | configuration is checked before the flag; a missing or invalid flag stops the run; a failed git step stops it; only a ready run with no failed step submits |
| App.PlanCommitMode | app.js:96-136 | a failing `git cherry` or an empty commit list stops the run; otherwise the strategy is always the range between two undefined commits |
| App.PlanLocalMode | app.js:138-162 | local mode diffs against the resolved upstream name, not the payload's branch name |
| App.PlanPatchFailure | app.js:112-139 | the run stops on the patch exactly when the chosen diff cannot be materialised; a submitted payload carries the materialised text |
| App.PlanSubmission | app.js:93-155 | a submitted payload is a GitHub push payload for the repository name, the chosen branch, the git user and URL, with head "newHead", titled "Github Push: user/repo" |
| App.BuildSizeIgnored | app.js:6-124 | the build size argument never changes the run |
| App.AsWrittenCommitStrategy | app.js:104-105 | as written, every commit list, a single commit included, gives the range between two undefined commits |
| App.IntendedCommitStrategy | app.js:104-105 | looked up by the object's own keys, one commit shows HEAD and several give the range from the first to the last |

## Left out

- Running git, writing `myPatch.patch` and reading it back are left out. Each appears as an `ExecResult` (and an `Option` for the read) supplied to the model.
- Git's actual output is left out, except for the line format of `git cherry` that `getGitCommits` parses.
- `getBranchName`, `getRepoInfo`, `getGitEmail` and `getGitUser` are one-command wrappers. Their resolved value, the output with its first line break removed, is an input.
- `deletePatchFile` is left out. Only whether it is reached (`reachedCleanup`) is modelled, not whether the deletion succeeds.
- The connection to the document store and the credentialed URI are left out. Only whether the store can be reached and the query runs (`StoreStatus`) is modelled.
- `client.close` is left out. It is called before the upsert's promise settles, and whether that cuts the update short is left to the driver.
- Callback and promise timing are left out. `insertJob` returns `undefined` before its upsert settles, so in both modes (the `await` in local mode waits on `undefined`) `deletePatchFile` runs before the record is written and the outcome is logged. The model completes the upsert before cleanup, so it does not capture that ordering.
- The atomicity of the upsert under concurrent runs is left out, because it is a guarantee of the storage engine.
- How `$setOnInsert` merges the filter's equality fields into the inserted document is left out. The inserted record is the new job document.
- `new Date()` is left out. The creation time is a `Timestamp` input.
- `console` output is left out.
- `process.exit` is the outcomes `ConfigMissing` and `NothingToStage`.
- `process.env` and `process.argv` are a map and a sequence passed in.
- StagingUtils.GetRepoName: the `url === undefined` check is not modelled. It only logs, and `main` never passes an undefined URL, because a failed `getRepoInfo` returns first.
- JsStrings.ReplaceFirst: the "$&", "$$", "$`" and "$'" patterns of a JavaScript replacement string are not expanded; the replacement is inserted literally, which agrees with JavaScript for the "" the source passes.
- JsStrings.IndexOf: indices count characters, not UTF-16 code units, so they can differ from JavaScript's on text outside the Basic Multilingual Plane; the -1 answer, the only one the source tests, agrees.
- App.Property: the members inherited from `Object.prototype` (`toString`, `constructor` and the like) are function values, which the model does not represent, so `Property` requires a key that is not one of them. `main` looks up only "0" and "1".
- Error codes are integers. A failure without a numeric code is not distinguished from other codes.
- When a file read fails after the diff succeeded, the promise rejects, and the later `resolve` has no effect. The model keeps only the rejection.

## Findings

| source | as written | input that shows it | evidently intended | confidence | as-written member | corrected member |
|---|---|---|---|---|---|---|
| stagingUtils.js:31 | the status is compared for equality with the array `["inProgress", "inQueue"]`, which a string status never equals | the same job submitted twice | match a job with the same payload whose status is "inQueue" or "inProgress", as the array of statuses at line 31 and the `$or` alternative at line 34 show (the comment at lines 29-30 reads more narrowly, as jobs not yet started, "inQueue" alone) | not executed | JobQueue.AsWrittenQueuesDuplicates | JobQueue.IntendedUpsertKeepsAtMostOneUnfinished |
| app.js:104-105 | the commit range is read as `commits[0]` and `commits[1]` from an object with keys `firstCommit` and `lastCommit`, so both are undefined | one unpushed commit: the patch is `git diff undefined^...undefined` | read `commits.firstCommit` and `commits.lastCommit`: one commit shows HEAD, several diff from the first to the last | not executed | App.AsWrittenCommitStrategy | App.IntendedCommitStrategy |
| stagingUtils.js:113 | `replace(".git", "")` removes the first ".git" in the last segment | `org/my.github.io.git` gives `myhub.io.git` | strip a trailing ".git" suffix, giving `my.github.io` | not executed | StagingUtils.RepoNameDropsInnerGit | StagingUtils.RepoNameStrippingSuffixRecovers |

`Run` and `InsertJob` keep the behaviour as written, because that is what the program does. The corrected definitions (`JobQueue.IntendedFilter`, lookups by `firstCommit`/`lastCommit`, `StagingUtils.RepoNameStrippingSuffix`) carry the intended properties.
