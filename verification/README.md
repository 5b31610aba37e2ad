# capistrano-gitflow release tagging, modelled in Dafny

capistrano-gitflow adds a gitflow-style release convention to Capistrano
deploys. A deploy to staging tags the current commit as
`staging-YYYY-MM-DD-<serial>-<user>-<slug>`. A deploy to production promotes
a staging tag to `production-YYYY-MM-DD-<serial>-<user>-<slug>` at the same
commit. Each task then sets the deploy branch to the chosen tag.

This project models the tag bookkeeping of `lib/capistrano/tasks/gitflow.rb`
as pure functions over an in-memory repository:

- `Repository` holds the repository. Tags are kept in history order, most
  recent first, together with the revision of `HEAD`. `last_tag_matching` is
  the first tag that matches a pattern. `git tag` puts the new tag in front.
  When the name is already taken, git refuses and the repository stays
  unchanged, because neither Rake task checks the exit status of `system`.
- `TagNames` is the naming scheme, with Ruby's regex semantics written out:
  - the unanchored serial regex, searched leftmost-first, where `$1.to_i`
    of an empty capture is 0;
  - the line-anchored `^staging-(.*)$`, whose failed match interpolates
    `nil` as the empty string;
  - the line-anchored `^[Yy]$` test on a confirmation answer.
- `Gitflow` holds the tasks: `next_staging_tag`, `tag_staging`,
  `tag_production`, and the range part of `commit_log`. Each returns an
  outcome:
  - `Ok(state, branch)`: the new repository and the deploy branch;
  - `Abort(msg)`: Ruby's `abort`;
  - `Declined`: `exit(1)` after a refused prompt.
- `ReleaseProperties` holds the cross-call guarantees. Same-day staging
  serials descend in history order (`SerialsDescend`). Under that invariant:
  - a freshly computed staging name is never taken;
  - `tag_staging` keeps the invariant, and so does `tag_production`;
  - re-tagging is idempotent;
  - serials go up by one;
  - promotion tags exactly the candidate's revision, behind its guards and
    prompts.
- `Scenarios` walks through one release story. It starts with a re-deploy of
  an already-tagged commit. A new commit then gets serial 2 of the day, and
  its confirmed promotion creates the production tag at the same revision.

Things outside the program are parameters:
- the current date (`Date.today.to_s`);
- the output of `whoami`;
- the operator's answers to the prompts;
- the `to_url` normalisation of the stringex gem, passed as an arbitrary
  function `toUrl: string -> string`.

Behaviours of the code a reader might not expect:
- The release is refused when the raw description is empty (`what == ''`).
  A description that `to_url` reduces to nothing still makes a tag, with an
  empty slug.
- An explicit `tag=` is always the candidate. When it lacks `staging-`, the
  task aborts; it does not fall back to the latest staging tag.
- The "already released, confirm only" branch fires only when the derived
  name equals the LATEST production tag. An older production tag of the same
  name leads to a `git tag` that fails silently. The branch is still set to
  that name.
- The staging-tag guard is the unanchored `/staging-.*/`, not a strict
  grammar. A candidate such as `hotfix-staging-1` passes it and is named
  `production-` (`UnanchoredStagingGuard`).
- An empty confirmation answer is not replaced by the displayed default. It
  simply fails `^[Yy]$`, so the run is declined.
- For a stage other than staging or production, `tag_production` aborts in
  its embedded `commit_log` call before prompting, unless the derived name is
  already the latest production tag. In that case `commit_log` is never
  called and the run goes ahead on `y`/`Y`.

## Model

| member | source | states |
|---|---|---|
| Text.LeadingDigits | lib/capistrano/tasks/gitflow.rb:26 | the greedy `([0-9]*)` capture is the longest digit prefix: all digits, and the next character (if any) is not a digit |
| Text.LeadingDigitsStopsAtDash | lib/capistrano/tasks/gitflow.rb:26 | a serial followed by `-` is captured whole, not more and not less |
| Text.DecimalRoundTrip | lib/capistrano/tasks/gitflow.rb:27 | `to_i` of the decimal interpolation of a serial gives the serial back |
| Text.DecimalValueZero | lib/capistrano/tasks/gitflow.rb:27 | `to_i` of a digit string is 0 exactly when every digit is `0`, the empty string included |
| Text.DecimalString | lib/capistrano/tasks/gitflow.rb:32 | the interpolation of an Integer is a non-empty digit string with no leading zero |
| Text.DecimalCanonical | lib/capistrano/tasks/gitflow.rb:32 | conversely, a digit string without a leading zero is the interpolation of its own value |
| Repository.FirstMatch | lib/capistrano/tasks/gitflow.rb:4 | the index found matches the pattern and no more recent tag does; none is found only if no tag matches |
| Repository.LastTagMatching | lib/capistrano/tasks/gitflow.rb:2-6 | `nil` exactly when no tag matches; otherwise the name of the most recent matching tag |
| Repository.LastStagingTag | lib/capistrano/tasks/gitflow.rb:8-10 | `nil` exactly when no tag starts with `staging-`; otherwise the name of the most recent tag starting with `staging-` |
| Repository.LastProductionTag | lib/capistrano/tasks/gitflow.rb:35-37 | `nil` exactly when no tag starts with `production-`; otherwise the name of the most recent tag starting with `production-` |
| Repository.Resolve | lib/capistrano/tasks/gitflow.rb:127 | a tag name resolves exactly when the tag exists, and to the revision that tag carries |
| Repository.CreateTag | lib/capistrano/tasks/gitflow.rb:136 | a free name adds exactly one tag in front and keeps all others; a taken name leaves the repository unchanged; `HEAD` is untouched |
| Repository.CreateTagResolves | lib/capistrano/tasks/gitflow.rb:170 | creating a tag keeps names unique, makes a free name resolve to the given revision and leaves every other name resolving as before |
| TagNames.SerialCaptureFrom | lib/capistrano/tasks/gitflow.rb:26 | leftmost-match semantics of the unanchored serial regex: no match anywhere, or the capture after the first matching position |
| TagNames.SerialCapture | lib/capistrano/tasks/gitflow.rb:26 | the serial regex fails exactly when it matches at no position of the name; otherwise `$1` is the digit run after the leftmost match |
| TagNames.SerialOf | lib/capistrano/tasks/gitflow.rb:26-27 | no serial exactly when the serial regex matches at no position of the name |
| TagNames.SerialOfLeftmost | lib/capistrano/tasks/gitflow.rb:26-27 | a serial read from a name is `$1.to_i` of the digit run after the leftmost match of the regex |
| TagNames.FormatNameShape | lib/capistrano/tasks/gitflow.rb:32 | the name begins with `<stage>-<date>-` and ends with `-<user>-<slug>` |
| TagNames.SerialCaptureOfDatedName | lib/capistrano/tasks/gitflow.rb:26-27 | on a name starting with `staging-<date>-` the regex matches at the start, so `$1` is the digit run right after that prefix |
| TagNames.SerialRoundTrip | lib/capistrano/tasks/gitflow.rb:25-32 | a staging name formed for a date carries that date's glob prefix, and its serial reads back as the serial it was formed with |
| TagNames.ProductionSuffixFrom | lib/capistrano/tasks/gitflow.rb:153 | leftmost-match semantics of `^staging-(.*)$`: no line starts with `staging-`, or `$1` runs from after the first such `staging-` to the end of its line |
| TagNames.ProductionName | lib/capistrano/tasks/gitflow.rb:153-154 | the promoted name always starts with `production-` |
| TagNames.ProductionNameOfSingleLine | lib/capistrano/tasks/gitflow.rb:153-154 | the production name keeps the remainder after a leading `staging-` verbatim, and is the bare `production-` when the name does not start with `staging-` |
| TagNames.PromotedName | lib/capistrano/tasks/gitflow.rb:153-154 | promoting `staging-<date>-<serial>-<user>-<slug>` gives `production-<date>-<serial>-<user>-<slug>` |
| TagNames.IsAffirmative | lib/capistrano/tasks/gitflow.rb:160 | `^[Yy]$` accepts `y` and `Y`, rejects the empty answer (no default is substituted), and accepts only answers containing a `y` or `Y` |
| TagNames.AffirmativeSingleLine | lib/capistrano/tasks/gitflow.rb:160 | on a one-line normalised answer the confirmation test accepts exactly `y` and `Y` |
| Gitflow.NextSerial | lib/capistrano/tasks/gitflow.rb:25-30 | the serial is at least 1, and exactly 1 when no tag of the day exists |
| Gitflow.NextStagingTag | lib/capistrano/tasks/gitflow.rb:18-33 | aborts exactly on an empty description; otherwise the name is stage, date, serial, user and slug joined by dashes; a staging name of an ISO date reads back with the computed serial |
| Gitflow.CommitRange | lib/capistrano/tasks/gitflow.rb:83-102 | aborts exactly on a stage other than production or staging; production runs from the latest production tag to the latest staging tag, staging from the latest staging tag to `master`; an explicit tag replaces the upper bound |
| Gitflow.Reuses | lib/capistrano/tasks/gitflow.rb:126-130 | never holds without a staging tag; when it holds, the latest staging tag is a tag at `HEAD` |
| Gitflow.TagStaging | lib/capistrano/tasks/gitflow.rb:124-140 | never declines; aborts exactly when a new tag is needed and the description is empty; keeps the repository and deploys the latest staging tag when it points at `HEAD`; a new tag is placed at `HEAD`, in front of all existing tags, and the deploy branch resolves to `HEAD` |
| Gitflow.Candidate | lib/capistrano/tasks/gitflow.rb:144 | the explicit tag when given, else the latest staging tag |
| Gitflow.Promotable | lib/capistrano/tasks/gitflow.rb:144-151 | a promotable candidate resolves to a revision; without `tag=`, a candidate is promotable exactly when some staging tag exists |
| Gitflow.AlreadyReleased | lib/capistrano/tasks/gitflow.rb:156 | never holds without a production tag; when it holds, the derived production name is an existing tag |
| Gitflow.TagProduction | lib/capistrano/tasks/gitflow.rb:143-174 | aborts exactly when the candidate is missing, lacks `staging-`, does not exist, or (when not yet released) the stage is unsupported; declines only on a non-affirmative answer, and for a new release only without an explicit tag; continues only on an affirmative answer unless `tag=` is given for a new release; on success deploys the derived production name; creates nothing when already released; a created tag sits at the candidate's revision; every successful outcome is `git tag` of the branch name at the candidate's revision, which a taken name leaves without effect |
| ReleaseProperties.DatedName | lib/capistrano/tasks/gitflow.rb:25-27 | a tag found by the `staging-<date>-*` glob is a dated staging name, and the serial regex reads its serial right after the prefix |
| ReleaseProperties.NextSerialFollowsLatest | lib/capistrano/tasks/gitflow.rb:25-30 | the next serial is 1 without a tag of the day, else the serial of the latest tag of the day plus 1 |
| ReleaseProperties.SameDaySerialsBelowNext | lib/capistrano/tasks/gitflow.rb:25-30 | while same-day serials descend, every tag of the day has a serial below the next serial |
| ReleaseProperties.NewStagingNameIsFresh | lib/capistrano/tasks/gitflow.rb:25-32 | while same-day serials descend, the next staging name carries the largest serial of its day and is not taken yet |
| ReleaseProperties.TagStagingAddsOneTag | lib/capistrano/tasks/gitflow.rb:133-139 | when the latest staging tag is not at `HEAD` and a description is given, exactly one tag with the next staging name is added at `HEAD`, all other tags are kept, the branch is the new name, and names stay unique with same-day serials descending |
| ReleaseProperties.FirstStagingTagIsCreated | lib/capistrano/tasks/gitflow.rb:126-137 | with no staging tag at all and a description, a new tag is always created at `HEAD` |
| ReleaseProperties.TagStagingIdempotent | lib/capistrano/tasks/gitflow.rb:125-139 | a second call on the resulting state returns the same outcome; once a tag was created or kept at `HEAD`, that holds for any date, user and description |
| ReleaseProperties.TagStagingAdvancesSerial | lib/capistrano/tasks/gitflow.rb:25-32 | after a new staging tag dated today, the next serial for today is one higher |
| ReleaseProperties.PromotionGuards | lib/capistrano/tasks/gitflow.rb:144-151 | no candidate (no explicit tag and no staging tag) or a candidate without `staging-` aborts with the "Couldn't find a staging tag" message; a missing candidate aborts with "Staging tag ... does not exist." |
| ReleaseProperties.ReleasedTagOnlyConfirms | lib/capistrano/tasks/gitflow.rb:156-160 | when the derived name is the latest production tag, nothing is created and the run continues exactly on a `y`/`Y` answer, explicit tag or not |
| ReleaseProperties.PromotionNeedsConfirmation | lib/capistrano/tasks/gitflow.rb:164-168 | a new promotion without an explicit tag is declined exactly when the answer is not `y`/`Y` |
| ReleaseProperties.ExplicitTagSkipsPrompt | lib/capistrano/tasks/gitflow.rb:164-168 | with an explicit tag a new promotion ignores the answer and is never declined |
| ReleaseProperties.PromotionTagsCandidateRevision | lib/capistrano/tasks/gitflow.rb:169-173 | a confirmed new promotion adds exactly one tag, `production-<suffix>`, at the candidate's revision, and the deploy branch resolves to that revision |
| ReleaseProperties.TagProductionPreservesInvariants | lib/capistrano/tasks/gitflow.rb:170 | promotion keeps names unique and same-day staging serials descending |
| ReleaseProperties.PromotionLogEndsAtCandidate | lib/capistrano/tasks/gitflow.rb:92-96 | for production, the log shown before promotion runs from the latest production tag to exactly the candidate being promoted |
| ReleaseProperties.UnanchoredStagingGuard | lib/capistrano/tasks/gitflow.rb:146-154 | any existing single-line tag that contains `staging-` without starting with it, given explicitly, passes the guard and is promoted as the bare `production-` |
| ReleaseProperties.HotfixIsPromotedBare | lib/capistrano/tasks/gitflow.rb:146-154 | an existing tag `hotfix-staging-1`, given explicitly, is promoted as `production-` at its revision |
| Scenarios.RedeployKeepsTag | lib/capistrano/tasks/gitflow.rb:130-132 | with `HEAD` at the commit of `staging-2024-01-01-1-alice-fix-bug`, `tag_staging` creates nothing and deploys that tag, whatever the date, user and description |
| Scenarios.NewCommitGetsNextSerial | lib/capistrano/tasks/gitflow.rb:133-139 | after serial 1 of the day at another commit, `tag_staging` creates serial 2 at `HEAD` and keeps the earlier tag |
| Scenarios.PromoteNewTag | lib/capistrano/tasks/gitflow.rb:162-173 | the confirmed promotion of that serial-2 tag creates `production-<date>-2-<user>-<slug>` at its revision and deploys it |

## Left out

- Subprocess calls are replaced by the abstract repository and parameters:
  `git describe`, `git log`, `git fetch`, `git tag`, `git push`, `whoami`
  and `open`. Tag creation is the only effect modelled.
- The recency order of `git log --tags` and `git describe --exact-match` is
  not modelled. "Latest matching" is the first match in history order, and
  a new tag becomes the most recent one.
- The existence check on the candidate (line 149) is an exact name lookup.
  Two behaviours are not modelled:
  - with the `git log --tags='<name>*'` pre-selection, a newer tag that
    merely starts with the candidate's name hides the candidate;
  - glob metacharacters in a user-supplied tag.
- The terminal I/O of `ask_confirm`: the answer is a parameter. The prompt
  text and the displayed default are not modelled.
- The internals of `to_url`, which live in the stringex gem: it is an
  arbitrary function parameter.
- `Date.today`: the date is a parameter. Lemmas that read a serial back
  assume its `YYYY-MM-DD` shape.
- `verify_up_to_date`: it scrapes shell output, then compares two strings.
- `calculate_tag`: the `git fetch`, the Rake task lookup, and the check of
  the push exit status.
- The hook wiring and the `deploy:pending:compare` task.
- How the log command is chosen: the `git_log_command` environment override
  and the GitHub compare URL.
- The `puts` messages.
- Shell quoting of tag names inside `system` strings.
- Concurrent operators racing on the same serial, which the `git fetch` before tagging only narrows.
- ReleasedTagOnlyConfirms: states the `y`/`Y` equivalence only for a normalised answer without newlines; for any answer, `TagProduction` ensures that an already released tag is kept only when `IsAffirmative` holds for the answer (the `^[Yy]$` line match) and is declined otherwise.
- PromotionNeedsConfirmation: states the `y`/`Y` equivalence only for a normalised answer without newlines; for any answer, `TagProduction` ensures that a promotion without `tag=` continues only when `IsAffirmative` holds for the answer and is declined otherwise.
- ProductionNameOfSingleLine: covers single-line names only; git forbids control characters in tag names, and `ProductionSuffixFrom` models the multi-line case.
- PromotedName: assumes date, user and slug without newlines, as above.
- TagStagingAddsOneTag: assumes the `staging` stage, a `YYYY-MM-DD` date and descending same-day serials; without them a computed name can collide and `git tag` fails silently, which `TagStaging` models.
- NewStagingNameIsFresh: assumes a `YYYY-MM-DD` date and descending same-day serials, for the same reason.
- TagStagingIdempotent: assumes the `staging` stage, the stage under which `calculate_tag` runs `tag_staging`.
- TagStagingAdvancesSerial: assumes the `staging` stage and a `YYYY-MM-DD` date.
- FormatNameShape: fixes the two ends of the name. The serial in the middle is pinned by `SerialRoundTrip` and `PromotedName`, not by the contract itself.
- IsAffirmative: its contract gives only the necessary and sufficient cases above. The exact iff is proved for one-line answers in `AffirmativeSingleLine`, and the line-by-line test of a multi-line answer is its definition.
- Reuses: its contract states necessary conditions only. It holds exactly when the latest staging tag resolves to `HEAD`, which is its definition.
- AlreadyReleased: its contract states necessary conditions only. It holds exactly when the derived name equals the latest production tag, which is its definition.
