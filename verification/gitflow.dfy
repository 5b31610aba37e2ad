/** The gitflow release tasks as pure functions over the repository:
    computing the next staging tag, tagging staging, promoting a staging tag
    to production, and choosing the commit range shown before a promotion. */
module Gitflow {
  import opened Options
  import opened Text
  import opened Repository
  import opened TagNames

  /** Deployment configuration: the `stage` setting and the optional `tag=...` override. */
  datatype Context = Context(stage: string, tag: Option<string>)

  /** What the tasks read from the outside world: `Date.today.to_s`, the output
      of `whoami` (chomped), and the `to_url` normalisation of the stringex gem. */
  datatype Env = Env(today: string, whoami: string, toUrl: string -> string)

  /** How a task ends: `Ok` sets the deploy branch on the new repository state,
      `Abort` is Ruby's `abort`, `Declined` is `exit(1)` after a refused prompt. */
  datatype Outcome = Ok(state: Repo, branch: string) | Abort(msg: string) | Declined

  const NoDescriptionMessage := "No tag has been provided: \"\""
  const NoStagingTagMessage := "Couldn't find a staging tag to deploy; use '-s tag=staging-YYYY-MM-DD.X'"

  function MissingTagMessage(name: string): string {
    "Staging tag " + name + " does not exist."
  }

  function UnsupportedStageMessage(stage: string): string {
    "Unsupported stage " + stage
  }

  /** The serial for a new tag dated `today`: one more than `$1.to_i` of the latest
      `staging-<today>-*` tag, or 1 when there is none or the serial regex does not match it. */
  function NextSerial(repo: Repo, today: string): (n: nat)
    ensures n >= 1
    ensures LastTagMatching(repo, Prefix(SameDayPrefix(today))).None? ==> n == 1
  {
    match LastTagMatching(repo, Prefix(SameDayPrefix(today)))
    case None => 1
    case Some(latest) =>
      match SerialOf(latest)
      case None => 1
      case Some(v) => v + 1
  }

  /** `next_staging_tag`: aborts when the operator's description is empty, otherwise
      names the release `<stage>-<today>-<serial>-<user>-<slug>`. */
  function NextStagingTag(repo: Repo, stage: string, env: Env, answer: string): (r: Result<string>)
    ensures r.Failure? <==> answer == ""
    ensures r.Failure? ==> r.msg == NoDescriptionMessage
    ensures r.Success? ==> r.value == FormatName(stage, env.today, NextSerial(repo, env.today), env.toUrl(env.whoami), env.toUrl(answer))
    ensures r.Success? && stage == "staging" && IsIsoDate(env.today) ==>
      && StartsWith(r.value, SameDayPrefix(env.today))
      && SerialOf(r.value) == Some(NextSerial(repo, env.today))
  {
    if answer == "" then Failure(NoDescriptionMessage)
    else
      var serial := NextSerial(repo, env.today);
      var name := FormatName(stage, env.today, serial, env.toUrl(env.whoami), env.toUrl(answer));
      assert stage == "staging" && IsIsoDate(env.today) ==>
        StartsWith(name, SameDayPrefix(env.today)) && SerialOf(name) == Some(serial) by {
        if stage == "staging" && IsIsoDate(env.today) {
          SerialRoundTrip(env.today, serial, env.toUrl(env.whoami), env.toUrl(answer));
        }
      }
      Success(name)
  }

  /** The bounds of the commit log `from..to`; either end may be missing (`nil`). */
  datatype Range = Range(from: Option<string>, to: Option<string>)

  /** `commit_log`, range part: production shows latest production .. latest staging,
      staging shows latest staging .. `master`; an explicit tag replaces the upper bound. */
  function CommitRange(repo: Repo, ctx: Context): (r: Result<Range>)
    ensures r.Failure? <==> ctx.stage != "production" && ctx.stage != "staging"
    ensures r.Failure? ==> r.msg == UnsupportedStageMessage(ctx.stage)
    ensures r.Success? && ctx.tag.Some? ==> r.value.to == ctx.tag
    ensures r.Success? && ctx.stage == "production" ==> r.value.from == LastProductionTag(repo)
    ensures r.Success? && ctx.stage == "staging" ==> r.value.from == LastStagingTag(repo)
    ensures r.Success? && ctx.tag.None? && ctx.stage == "production" ==> r.value.to == LastStagingTag(repo)
    ensures r.Success? && ctx.tag.None? && ctx.stage == "staging" ==> r.value.to == Some("master")
  {
    if ctx.stage == "production" then
      Success(Range(LastProductionTag(repo), if ctx.tag.Some? then ctx.tag else LastStagingTag(repo)))
    else if ctx.stage == "staging" then
      Success(Range(LastStagingTag(repo), if ctx.tag.Some? then ctx.tag else Some("master")))
    else
      Failure(UnsupportedStageMessage(ctx.stage))
  }

  /** The latest staging tag exists and already points at `HEAD`. */
  predicate Reuses(repo: Repo): (b: bool)
    ensures LastStagingTag(repo).None? ==> !b
    ensures b ==> LastStagingTag(repo).Some? && Tag(LastStagingTag(repo).value, repo.head) in repo.tags
  {
    && LastStagingTag(repo).Some?
    && Resolve(repo, LastStagingTag(repo).value) == Some(repo.head)
  }

  /** `tag_staging`: keeps the latest staging tag when it already points at `HEAD`,
      otherwise tags `HEAD` with the next staging name; the branch becomes that tag. */
  function TagStaging(repo: Repo, ctx: Context, env: Env, answer: string): (r: Outcome)
    ensures !r.Declined?
    ensures r.Abort? <==> !Reuses(repo) && answer == ""
    ensures Reuses(repo) ==> r == Ok(repo, LastStagingTag(repo).value)
    ensures r.Ok? ==> r.state.head == repo.head
    ensures r.Ok? && r.state != repo ==>
      && r.state.tags == [Tag(r.branch, repo.head)] + repo.tags
      && Resolve(r.state, r.branch) == Some(repo.head)
  {
    if Reuses(repo) then Ok(repo, LastStagingTag(repo).value)
    else
      match NextStagingTag(repo, ctx.stage, env, answer)
      case Failure(msg) => Abort(msg)
      case Success(name) => Ok(CreateTag(repo, name, repo.head), name)
  }

  /** The staging tag `tag_production` promotes: the explicit `tag=...` if given, else the latest staging tag. */
  function Candidate(repo: Repo, ctx: Context): (c: Option<string>)
    ensures ctx.tag.Some? ==> c == ctx.tag
    ensures ctx.tag.None? ==> c == LastStagingTag(repo)
  {
    if ctx.tag.Some? then ctx.tag else LastStagingTag(repo)
  }

  /** The candidate passes both guards of `tag_production`: it contains `staging-` and exists. */
  predicate Promotable(repo: Repo, ctx: Context): (b: bool)
    ensures b ==> Candidate(repo, ctx).Some? && Resolve(repo, Candidate(repo, ctx).value).Some?
    ensures ctx.tag.None? ==> (b <==> LastStagingTag(repo).Some?)
  {
    var c := Candidate(repo, ctx);
    assert c.Some? && ctx.tag.None? ==> OccursAt(c.value, "staging-", 0);
    c.Some? && Contains(c.value, "staging-") && HasTag(repo, c.value)
  }

  /** The production name derived from the candidate is already the latest production tag. */
  predicate AlreadyReleased(repo: Repo, ctx: Context): (b: bool)
    requires Promotable(repo, ctx)
    ensures LastProductionTag(repo).None? ==> !b
    ensures b ==> HasTag(repo, ProductionName(Candidate(repo, ctx).value))
  {
    LastProductionTag(repo) == Some(ProductionName(Candidate(repo, ctx).value))
  }

  /** `tag_production`: promotes the candidate staging tag to `production-<suffix>`, at the
      candidate's revision, behind the guards and confirmation prompts of the Rake task. */
  function TagProduction(repo: Repo, ctx: Context, env: Env, answer: string): (r: Outcome)
    ensures r.Abort? <==> !Promotable(repo, ctx) || (!AlreadyReleased(repo, ctx) && CommitRange(repo, ctx).Failure?)
    ensures r.Declined? ==> Promotable(repo, ctx) && !IsAffirmative(env.toUrl(answer))
    ensures r.Declined? && !AlreadyReleased(repo, ctx) ==> ctx.tag.None?
    ensures r.Ok? && (ctx.tag.None? || AlreadyReleased(repo, ctx)) ==> IsAffirmative(env.toUrl(answer))
    ensures r.Ok? ==> r.branch == ProductionName(Candidate(repo, ctx).value)
    ensures r.Ok? ==> r.state == CreateTag(repo, r.branch, Resolve(repo, Candidate(repo, ctx).value).value)
    ensures r.Ok? && AlreadyReleased(repo, ctx) ==> r.state == repo
    ensures r.Ok? && r.state != repo ==>
      && r.state.head == repo.head
      && r.state.tags == [Tag(r.branch, Resolve(repo, Candidate(repo, ctx).value).value)] + repo.tags
  {
    var c := Candidate(repo, ctx);
    if c.None? || !Contains(c.value, "staging-") then Abort(NoStagingTagMessage)
    else if LastTagMatching(repo, Exact(c.value)).None? then Abort(MissingTagMessage(c.value))
    else
      var name := ProductionName(c.value);
      if LastProductionTag(repo) == Some(name) then
        if IsAffirmative(env.toUrl(answer)) then Ok(repo, name) else Declined
      else
        match CommitRange(repo, ctx)
        case Failure(msg) => Abort(msg)
        case Success(_) =>
          if ctx.tag.None? && !IsAffirmative(env.toUrl(answer)) then Declined
          else Ok(CreateTag(repo, name, Resolve(repo, c.value).value), name)
  }
}
