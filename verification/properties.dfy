/** What the release tasks guarantee across calls: staging serials keep
    increasing per day, re-tagging an unchanged `HEAD` is a no-op, a promotion
    tags exactly the candidate's revision, and the guards and prompts of a
    promotion decide when a tag is created. */
module ReleaseProperties {
  import opened Options
  import opened Text
  import opened Repository
  import opened TagNames
  import opened Gitflow

  /** The serial `$1.to_i` reads from a name shaped `staging-YYYY-MM-DD-...`. */
  function SerialValue(name: string): nat
    requires |name| >= 19
  {
    DecimalValue(LeadingDigits(name[19..]))
  }

  /** Both names are staging names dated the same day, `staging-YYYY-MM-DD-...`. */
  ghost predicate SameDay(a: string, b: string) {
    SerialMatchAt(a, 0) && SerialMatchAt(b, 0) && a[..19] == b[..19]
  }

  /** Among staging tags of one day, the more recent carries the larger serial. */
  ghost predicate SerialsDescend(tags: seq<Tag>) {
    forall i, j :: 0 <= i < j < |tags| && SameDay(tags[i].name, tags[j].name) ==>
      SerialValue(tags[i].name) > SerialValue(tags[j].name)
  }

  /** A name starting with `staging-<date>-` is a dated staging name of that day,
      and the serial regex reads its serial right after that prefix. */
  lemma DatedName(name: string, date: string)
    requires IsIsoDate(date) && StartsWith(name, SameDayPrefix(date))
    ensures SerialMatchAt(name, 0) && name[..19] == SameDayPrefix(date)
    ensures SerialOf(name) == Some(SerialValue(name))
  {
    var p := SameDayPrefix(date);
    assert |p| == 19 && name[..19] == p;
    assert p[0..8] == "staging-" && p[8..18] == date && p[18] == '-';
    assert name[0..8] == p[0..8] && name[8..18] == p[8..18] && name[18] == p[18];
    assert SerialMatchAt(name, 0);
    assert name == p + name[19..];
    SerialCaptureOfDatedName(date, name[19..]);
  }

  /** The next serial is one more than the serial of the latest tag of the same day. */
  lemma NextSerialFollowsLatest(repo: Repo, today: string)
    requires IsIsoDate(today)
    ensures match FirstMatch(repo.tags, Prefix(SameDayPrefix(today)))
      case None => NextSerial(repo, today) == 1
      case Some(k) => |repo.tags[k].name| >= 19 && NextSerial(repo, today) == SerialValue(repo.tags[k].name) + 1
  {
    match FirstMatch(repo.tags, Prefix(SameDayPrefix(today)))
    case None =>
    case Some(k) =>
      DatedName(repo.tags[k].name, today);
  }

  /** Every staging tag of the day carries a serial below the next serial, as long as
      same-day serials descend in history order. */
  lemma SameDaySerialsBelowNext(repo: Repo, today: string)
    requires IsIsoDate(today) && SerialsDescend(repo.tags)
    ensures forall j :: 0 <= j < |repo.tags| && StartsWith(repo.tags[j].name, SameDayPrefix(today)) ==>
      SerialValue(repo.tags[j].name) < NextSerial(repo, today)
  {
    var p := SameDayPrefix(today);
    NextSerialFollowsLatest(repo, today);
    forall j | 0 <= j < |repo.tags| && StartsWith(repo.tags[j].name, p)
      ensures SerialValue(repo.tags[j].name) < NextSerial(repo, today)
    {
      assert Matches(Prefix(p), repo.tags[j].name);
      var k := FirstMatch(repo.tags, Prefix(p)).value;
      DatedName(repo.tags[j].name, today);
      DatedName(repo.tags[k].name, today);
      if k < j {
        assert SerialValue(repo.tags[k].name) > SerialValue(repo.tags[j].name);
      }
    }
  }

  /** The staging name `next_staging_tag` forms is not taken yet, as long as same-day
      serials descend in history order; it carries the largest serial of its day. */
  lemma NewStagingNameIsFresh(repo: Repo, today: string, user: string, slug: string)
    requires IsIsoDate(today) && SerialsDescend(repo.tags)
    ensures var name := FormatName("staging", today, NextSerial(repo, today), user, slug);
      && StartsWith(name, SameDayPrefix(today))
      && SerialValue(name) == NextSerial(repo, today)
      && !HasTag(repo, name)
  {
    var n := NextSerial(repo, today);
    var name := FormatName("staging", today, n, user, slug);
    SerialRoundTrip(today, n, user, slug);
    DatedName(name, today);
    SameDaySerialsBelowNext(repo, today);
    forall t | 0 <= t < |repo.tags|
      ensures repo.tags[t].name != name
    {
      if StartsWith(repo.tags[t].name, SameDayPrefix(today)) {
        assert SerialValue(repo.tags[t].name) < SerialValue(name);
      }
    }
  }

  /** Putting a tag with the largest serial of its day in front keeps serials descending. */
  lemma PrependNewestSerial(tags: seq<Tag>, t: Tag, today: string)
    requires IsIsoDate(today) && SerialsDescend(tags) && StartsWith(t.name, SameDayPrefix(today))
    requires forall j :: 0 <= j < |tags| && StartsWith(tags[j].name, SameDayPrefix(today)) ==>
      SerialValue(tags[j].name) < SerialValue(t.name)
    ensures SerialsDescend([t] + tags)
  {
    var all := [t] + tags;
    DatedName(t.name, today);
    forall i, j | 0 <= i < j < |all| && SameDay(all[i].name, all[j].name)
      ensures SerialValue(all[i].name) > SerialValue(all[j].name)
    {
      var older := tags[j - 1].name;
      assert all[j].name == older;
      if i == 0 {
        assert older[..19] == SameDayPrefix(today);
        assert StartsWith(older, SameDayPrefix(today));
      } else {
        assert all[i] == tags[i - 1];
      }
    }
  }

  /** The name formed for the `staging` stage starts with `staging-`. */
  lemma StagingNameIsStaging(date: string, serial: nat, user: string, slug: string)
    ensures StartsWith(FormatName("staging", date, serial, user, slug), StagingPrefix)
  {
    var name := FormatName("staging", date, serial, user, slug);
    assert name == "staging-" + (date + "-" + DecimalString(serial) + "-" + user + "-" + slug);
    assert name[..8] == "staging-";
  }

  /** When the latest staging tag is not at `HEAD` and a description is given, `tag_staging`
      adds exactly one tag, the next staging name at `HEAD`, keeps every other tag, and
      keeps the serials of each day descending and all names unique. */
  lemma TagStagingAddsOneTag(repo: Repo, ctx: Context, env: Env, answer: string)
    requires ctx.stage == "staging" && IsIsoDate(env.today)
    requires SerialsDescend(repo.tags) && UniqueNames(repo.tags)
    requires !Reuses(repo) && answer != ""
    ensures var r := TagStaging(repo, ctx, env, answer);
      && r.Ok?
      && r.branch == FormatName("staging", env.today, NextSerial(repo, env.today), env.toUrl(env.whoami), env.toUrl(answer))
      && r.state == Repo([Tag(r.branch, repo.head)] + repo.tags, repo.head)
      && SerialsDescend(r.state.tags)
      && UniqueNames(r.state.tags)
  {
    var today := env.today;
    var user := env.toUrl(env.whoami);
    var slug := env.toUrl(answer);
    var name := FormatName("staging", today, NextSerial(repo, today), user, slug);
    NewStagingNameIsFresh(repo, today, user, slug);
    CreateTagResolves(repo, name, repo.head, name);
    SameDaySerialsBelowNext(repo, today);
    PrependNewestSerial(repo.tags, Tag(name, repo.head), today);
  }

  /** If the repository has no staging tag at all, `tag_staging` with a description
      always creates a new tag at `HEAD`. */
  lemma FirstStagingTagIsCreated(repo: Repo, ctx: Context, env: Env, answer: string)
    requires ctx.stage == "staging" && LastStagingTag(repo).None? && answer != ""
    ensures var r := TagStaging(repo, ctx, env, answer);
      && r.Ok?
      && r.state == Repo([Tag(r.branch, repo.head)] + repo.tags, repo.head)
  {
    var name := FormatName("staging", env.today, NextSerial(repo, env.today), env.toUrl(env.whoami), env.toUrl(answer));
    StagingNameIsStaging(env.today, NextSerial(repo, env.today), env.toUrl(env.whoami), env.toUrl(answer));
    forall t | 0 <= t < |repo.tags|
      ensures repo.tags[t].name != name
    {
      assert !Matches(Prefix(StagingPrefix), repo.tags[t].name);
    }
  }

  /** `tag_staging` is idempotent: a second call on the state it produced returns the same
      outcome; once it created or kept a tag at `HEAD`, that holds whatever the second
      call's date, user or description. */
  lemma TagStagingIdempotent(repo: Repo, ctx: Context, env: Env, answer: string, env2: Env, answer2: string)
    requires ctx.stage == "staging"
    requires TagStaging(repo, ctx, env, answer).Ok?
    ensures var r := TagStaging(repo, ctx, env, answer);
      TagStaging(r.state, ctx, env, answer) == r
    ensures var r := TagStaging(repo, ctx, env, answer);
      r.state != repo || Reuses(repo) ==> TagStaging(r.state, ctx, env2, answer2) == r
  {
    var r := TagStaging(repo, ctx, env, answer);
    if r.state != repo {
      StagingNameIsStaging(env.today, NextSerial(repo, env.today), env.toUrl(env.whoami), env.toUrl(answer));
      assert r.state.tags[0] == Tag(r.branch, repo.head);
      assert FirstMatch(r.state.tags, Prefix(StagingPrefix)) == Some(0);
      assert FirstMatch(r.state.tags, Exact(r.branch)) == Some(0);
      assert Reuses(r.state);
    }
  }

  /** Serials increase by one per new staging tag on the same day: after `tag_staging`
      adds a tag dated `today`, the next serial for `today` is one higher. */
  lemma TagStagingAdvancesSerial(repo: Repo, ctx: Context, env: Env, answer: string)
    requires ctx.stage == "staging" && IsIsoDate(env.today)
    requires TagStaging(repo, ctx, env, answer).Ok? && TagStaging(repo, ctx, env, answer).state != repo
    ensures NextSerial(TagStaging(repo, ctx, env, answer).state, env.today) == NextSerial(repo, env.today) + 1
  {
    var r := TagStaging(repo, ctx, env, answer);
    var n := NextSerial(repo, env.today);
    SerialRoundTrip(env.today, n, env.toUrl(env.whoami), env.toUrl(answer));
    assert r.state.tags[0].name == FormatName("staging", env.today, n, env.toUrl(env.whoami), env.toUrl(answer));
    assert FirstMatch(r.state.tags, Prefix(SameDayPrefix(env.today))) == Some(0);
  }

  /** The three guards of `tag_production`, each with its message: no candidate at all, a
      candidate without `staging-` in it, and a candidate that is not a tag of the repository. */
  lemma PromotionGuards(repo: Repo, ctx: Context, env: Env, answer: string)
    ensures Candidate(repo, ctx).None? ==> TagProduction(repo, ctx, env, answer) == Abort(NoStagingTagMessage)
    // the case of no staging tag at all, an instance of the first
    ensures ctx.tag.None? && LastStagingTag(repo).None? ==> TagProduction(repo, ctx, env, answer) == Abort(NoStagingTagMessage)
    ensures var c := Candidate(repo, ctx);
      c.Some? && !Contains(c.value, "staging-") ==> TagProduction(repo, ctx, env, answer) == Abort(NoStagingTagMessage)
    ensures var c := Candidate(repo, ctx);
      c.Some? && Contains(c.value, "staging-") && !HasTag(repo, c.value) ==>
      TagProduction(repo, ctx, env, answer) == Abort(MissingTagMessage(c.value))
  {
  }

  /** A promotion whose name is already the latest production tag creates nothing and
      continues only on a `y`/`Y` answer, explicit tag or not. */
  lemma ReleasedTagOnlyConfirms(repo: Repo, ctx: Context, env: Env, answer: string)
    requires Promotable(repo, ctx) && AlreadyReleased(repo, ctx)
    requires NoNewline(env.toUrl(answer))
    ensures var name := ProductionName(Candidate(repo, ctx).value);
      TagProduction(repo, ctx, env, answer)
        == if env.toUrl(answer) in {"y", "Y"} then Ok(repo, name) else Declined
  {
    AffirmativeSingleLine(env.toUrl(answer));
  }

  /** A new promotion without an explicit tag is declined, creating nothing, unless the
      normalised answer is `y` or `Y`. */
  lemma PromotionNeedsConfirmation(repo: Repo, ctx: Context, env: Env, answer: string)
    requires ctx.tag.None? && Promotable(repo, ctx) && !AlreadyReleased(repo, ctx)
    requires CommitRange(repo, ctx).Success? && NoNewline(env.toUrl(answer))
    ensures TagProduction(repo, ctx, env, answer).Declined? <==> env.toUrl(answer) !in {"y", "Y"}
  {
    AffirmativeSingleLine(env.toUrl(answer));
  }

  /** With an explicit tag, a new promotion shows no prompt: the answer does not matter
      and the outcome is never a refusal. */
  lemma ExplicitTagSkipsPrompt(repo: Repo, ctx: Context, env: Env, answer: string, answer2: string)
    requires ctx.tag.Some? && Promotable(repo, ctx) && !AlreadyReleased(repo, ctx)
    ensures TagProduction(repo, ctx, env, answer) == TagProduction(repo, ctx, env, answer2)
    ensures !TagProduction(repo, ctx, env, answer).Declined?
  {
  }

  /** A confirmed promotion adds exactly one tag, `production-<suffix>`, at the revision
      of the candidate staging tag, and the deploy branch becomes that tag. */
  lemma PromotionTagsCandidateRevision(repo: Repo, ctx: Context, env: Env, answer: string)
    requires Promotable(repo, ctx) && !AlreadyReleased(repo, ctx) && CommitRange(repo, ctx).Success?
    requires ctx.tag.Some? || IsAffirmative(env.toUrl(answer))
    requires UniqueNames(repo.tags)
    requires !HasTag(repo, ProductionName(Candidate(repo, ctx).value))
    ensures var c := Candidate(repo, ctx).value;
      var name := ProductionName(c);
      var r := TagProduction(repo, ctx, env, answer);
      && r == Ok(Repo([Tag(name, Resolve(repo, c).value)] + repo.tags, repo.head), name)
      && Resolve(r.state, r.branch) == Resolve(repo, c)
  {
    var c := Candidate(repo, ctx).value;
    CreateTagResolves(repo, ProductionName(c), Resolve(repo, c).value, c);
  }

  /** A production tag never reads as a dated staging tag. */
  lemma ProductionNameIsNotStaging(candidate: string)
    ensures !SerialMatchAt(ProductionName(candidate), 0)
  {
    var name := ProductionName(candidate);
    assert name[0] == 'p' by {
      assert name[..11] == "production-";
    }
    assert name[0..8] != "staging-" by {
      assert name[0..8][0] == name[0];
    }
  }

  /** Putting a tag in front that is not a dated staging tag keeps serials descending. */
  lemma PrependNonStaging(tags: seq<Tag>, t: Tag)
    requires SerialsDescend(tags) && !SerialMatchAt(t.name, 0)
    ensures SerialsDescend([t] + tags)
  {
    var all := [t] + tags;
    forall i, j | 0 <= i < j < |all| && SameDay(all[i].name, all[j].name)
      ensures SerialValue(all[i].name) > SerialValue(all[j].name)
    {
      assert all[i] == tags[i - 1] && all[j] == tags[j - 1];
    }
  }

  /** Tagging with a name that is not a dated staging name keeps both invariants. */
  lemma CreateNonStagingTag(repo: Repo, name: string, rev: Revision)
    requires SerialsDescend(repo.tags) && UniqueNames(repo.tags) && !SerialMatchAt(name, 0)
    ensures SerialsDescend(CreateTag(repo, name, rev).tags) && UniqueNames(CreateTag(repo, name, rev).tags)
  {
    CreateTagResolves(repo, name, rev, name);
    if !HasTag(repo, name) {
      PrependNonStaging(repo.tags, Tag(name, rev));
    }
  }

  /** `tag_production` keeps the serials of each day descending and all names unique. */
  lemma TagProductionPreservesInvariants(repo: Repo, ctx: Context, env: Env, answer: string)
    requires SerialsDescend(repo.tags) && UniqueNames(repo.tags)
    ensures var r := TagProduction(repo, ctx, env, answer);
      r.Ok? ==> SerialsDescend(r.state.tags) && UniqueNames(r.state.tags)
  {
    var r := TagProduction(repo, ctx, env, answer);
    if r.Ok? {
      var c := Candidate(repo, ctx).value;
      ProductionNameIsNotStaging(c);
      CreateNonStagingTag(repo, r.branch, Resolve(repo, c).value);
    }
  }

  /** Before a production promotion, the log shown runs from the latest production tag to
      exactly the staging tag being promoted. */
  lemma PromotionLogEndsAtCandidate(repo: Repo, ctx: Context)
    requires ctx.stage == "production"
    ensures CommitRange(repo, ctx) == Success(Range(LastProductionTag(repo), Candidate(repo, ctx)))
  {
  }

  /** The guard of `tag_production` accepts `staging-` anywhere in the candidate, but the
      production name only strips a leading `staging-`: an existing tag that contains
      `staging-` without starting with it, given explicitly, is promoted as the bare `production-`. */
  lemma UnanchoredStagingGuard(c: string, rev: Revision, env: Env, answer: string)
    requires Contains(c, "staging-") && !StartsWith(c, "staging-") && NoNewline(c)
    ensures var ctx := Context("production", Some(c));
      TagProduction(Repo([Tag(c, rev)], rev), ctx, env, answer)
        == Ok(Repo([Tag("production-", rev), Tag(c, rev)], rev), "production-")
  {
    var repo := Repo([Tag(c, rev)], rev);
    var ctx := Context("production", Some(c));
    ProductionNameOfSingleLine(c);
    ProductionPrefixLacksStaging();
    assert c != "production-";
    assert FirstMatch(repo.tags, Exact(c)) == Some(0);
    assert Resolve(repo, c) == Some(rev);
    assert Promotable(repo, ctx);
    assert !HasTag(repo, "production-");
    assert !AlreadyReleased(repo, ctx);
    assert CommitRange(repo, ctx).Success?;
  }

  /** `production-` has no `staging-` in it. */
  lemma ProductionPrefixLacksStaging()
    ensures !Contains("production-", "staging-")
  {
    var p := "production-";
    forall i | 0 <= i <= |p|
      ensures !OccursAt(p, "staging-", i)
    {
      if i + 8 <= |p| {
        assert p[i..i + 8][0] == p[i];
        assert p[i] != 's' by {
          if i == 0 { assert p[0] == 'p'; }
          else if i == 1 { assert p[1] == 'r'; }
          else if i == 2 { assert p[2] == 'o'; }
          else { assert p[3] == 'd'; }
        }
      }
    }
  }

  /** `hotfix-staging-1` contains `staging-` but does not start with it. */
  lemma HotfixName()
    ensures Contains("hotfix-staging-1", "staging-")
    ensures !StartsWith("hotfix-staging-1", "staging-")
    ensures NoNewline("hotfix-staging-1")
  {
    var c := "hotfix-staging-1";
    assert OccursAt(c, "staging-", 7);
    assert c[0] == 'h';
  }

  /** An existing tag `hotfix-staging-1`, given as `tag=hotfix-staging-1`, is promoted as `production-`. */
  lemma HotfixIsPromotedBare(rev: Revision, env: Env, answer: string)
    ensures var hotfix := Tag("hotfix-staging-1", rev);
      TagProduction(Repo([hotfix], rev), Context("production", Some(hotfix.name)), env, answer)
        == Ok(Repo([Tag("production-", rev), hotfix], rev), "production-")
  {
    HotfixName();
    UnanchoredStagingGuard("hotfix-staging-1", rev, env, answer);
  }
}
