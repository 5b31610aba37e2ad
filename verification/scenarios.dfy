/** The end-to-end release story: one staging tag from an earlier deploy,
    a re-deploy of the same commit, a new commit tagged as the next serial of
    the day, and its promotion to production. */
module Scenarios {
  import opened Options
  import opened Text
  import opened Repository
  import opened TagNames
  import opened Gitflow
  import opened ReleaseProperties

  const FixBug := Tag("staging-2024-01-01-1-alice-fix-bug", "R1")

  /** `HEAD` still at the commit of the latest staging tag: no new tag, that tag is deployed,
      whatever the date, the user and the description. */
  lemma RedeployKeepsTag(env: Env, answer: string)
    ensures TagStaging(Repo([FixBug], "R1"), Context("staging", None), env, answer)
      == Ok(Repo([FixBug], "R1"), FixBug.name)
  {
    var repo := Repo([FixBug], "R1");
    assert FixBug.name[..8] == "staging-";
    assert FirstMatch(repo.tags, Prefix(StagingPrefix)) == Some(0);
    assert FirstMatch(repo.tags, Exact(FixBug.name)) == Some(0);
  }

  /** The earlier staging tag of the day: serial 1 by alice, at revision `r1`. */
  function Earlier(date: string, r1: Revision): Tag {
    Tag(FormatName("staging", date, 1, "alice", "fix-bug"), r1)
  }

  /** The repository holding only the earlier tag, with `HEAD` elsewhere: the latest staging
      tag is not at `HEAD`, the next serial is 2, and both invariants hold. */
  lemma EarlierOnlyFacts(date: string, r1: Revision, r2: Revision)
    requires IsIsoDate(date) && r1 != r2
    ensures var repo := Repo([Earlier(date, r1)], r2);
      && !Reuses(repo)
      && NextSerial(repo, date) == 2
      && SerialsDescend(repo.tags)
      && UniqueNames(repo.tags)
  {
    var earlier := Earlier(date, r1);
    var repo := Repo([earlier], r2);
    StagingNameIsStaging(date, 1, "alice", "fix-bug");
    assert FirstMatch(repo.tags, Prefix(StagingPrefix)) == Some(0);
    assert FirstMatch(repo.tags, Exact(earlier.name)) == Some(0);
    SerialRoundTrip(date, 1, "alice", "fix-bug");
    DatedName(earlier.name, date);
    assert FirstMatch(repo.tags, Prefix(SameDayPrefix(date))) == Some(0);
    NextSerialFollowsLatest(repo, date);
  }

  /** `HEAD` moved on from the commit of the earlier tag: `tag_staging` creates the tag
      with serial 2 of the day, at `HEAD`, and keeps the earlier tag. */
  lemma NewCommitGetsNextSerial(env: Env, answer: string, r1: Revision, r2: Revision)
    requires IsIsoDate(env.today) && r1 != r2 && answer != ""
    ensures var earlier := Earlier(env.today, r1);
      var name := FormatName("staging", env.today, 2, env.toUrl(env.whoami), env.toUrl(answer));
      TagStaging(Repo([earlier], r2), Context("staging", None), env, answer)
        == Ok(Repo([Tag(name, r2), earlier], r2), name)
  {
    EarlierOnlyFacts(env.today, r1, r2);
    TagStagingAddsOneTag(Repo([Earlier(env.today, r1)], r2), Context("staging", None), env, answer);
  }

  /** The repository after the new staging tag: two staging tags of the day, no production tag. */
  function Staged(date: string, user: string, slug: string, r1: Revision, r2: Revision): Repo {
    Repo([Tag(FormatName("staging", date, 2, user, slug), r2), Earlier(date, r1)], r2)
  }

  /** Serials 1 and 2 of the day give distinct names. */
  lemma StagedNamesDiffer(date: string, user: string, slug: string)
    requires IsIsoDate(date)
    ensures FormatName("staging", date, 2, user, slug) != FormatName("staging", date, 1, "alice", "fix-bug")
  {
    SerialRoundTrip(date, 1, "alice", "fix-bug");
    SerialRoundTrip(date, 2, user, slug);
  }

  /** Staging names never start with `production-`. */
  lemma StagingIsNotProduction(date: string, serial: nat, user: string, slug: string)
    ensures !StartsWith(FormatName("staging", date, serial, user, slug), ProductionPrefix)
  {
    StagingNameIsStaging(date, serial, user, slug);
    assert FormatName("staging", date, serial, user, slug)[0] == 's';
  }

  /** The staged repository: names unique, the serial-2 tag is the latest staging tag and
      resolves to `r2`, no production tag exists and the promoted name is free. */
  lemma StagedFacts(date: string, user: string, slug: string, r1: Revision, r2: Revision)
    requires IsIsoDate(date)
    ensures var c := FormatName("staging", date, 2, user, slug);
      var staged := Staged(date, user, slug, r1, r2);
      && UniqueNames(staged.tags)
      && LastStagingTag(staged) == Some(c)
      && Contains(c, "staging-")
      && Resolve(staged, c) == Some(r2)
      && LastProductionTag(staged) == None
      && !HasTag(staged, FormatName("production", date, 2, user, slug))
  {
    var c := FormatName("staging", date, 2, user, slug);
    var earlier := Earlier(date, r1);
    var staged := Staged(date, user, slug, r1, r2);
    var released := FormatName("production", date, 2, user, slug);
    StagingNameIsStaging(date, 2, user, slug);
    assert OccursAt(c, "staging-", 0);
    StagedNamesDiffer(date, user, slug);
    StagingIsNotProduction(date, 2, user, slug);
    StagingIsNotProduction(date, 1, "alice", "fix-bug");
    assert FirstMatch(staged.tags, Prefix(StagingPrefix)) == Some(0);
    assert FirstMatch(staged.tags, Exact(c)) == Some(0);
    assert FirstMatch(staged.tags, Prefix(ProductionPrefix)) == None;
    assert released == "production" + "-" + Suffix(date, 2, user, slug);
    assert released[0] == 'p';
  }

  /** The guards of `tag_production` all pass on the staged repository, and the tag to be
      created does not exist yet. */
  lemma StagedIsPromotable(date: string, user: string, slug: string, r1: Revision, r2: Revision)
    requires IsIsoDate(date) && NoNewline(user) && NoNewline(slug)
    ensures var staged := Staged(date, user, slug, r1, r2);
      var ctx := Context("production", None);
      var c := FormatName("staging", date, 2, user, slug);
      && Candidate(staged, ctx) == Some(c)
      && Promotable(staged, ctx)
      && ProductionName(c) == FormatName("production", date, 2, user, slug)
      && !AlreadyReleased(staged, ctx)
      && CommitRange(staged, ctx).Success?
      && UniqueNames(staged.tags)
      && !HasTag(staged, ProductionName(c))
      && Resolve(staged, c) == Some(r2)
  {
    StagedFacts(date, user, slug, r1, r2);
    assert NoNewline(date);
    PromotedName(date, 2, user, slug);
  }

  /** The new tag, confirmed, is promoted under the same date, serial, user and slug, at
      the revision of the staging tag. */
  lemma PromoteNewTag(date: string, user: string, slug: string, r1: Revision, r2: Revision, env: Env, answer: string)
    requires IsIsoDate(date) && NoNewline(user) && NoNewline(slug)
    requires IsAffirmative(env.toUrl(answer))
    ensures var staged := Staged(date, user, slug, r1, r2);
      var released := FormatName("production", date, 2, user, slug);
      TagProduction(staged, Context("production", None), env, answer)
        == Ok(Repo([Tag(released, r2)] + staged.tags, r2), released)
  {
    StagedIsPromotable(date, user, slug, r1, r2);
    PromotionTagsCandidateRevision(Staged(date, user, slug, r1, r2), Context("production", None), env, answer);
  }
}
