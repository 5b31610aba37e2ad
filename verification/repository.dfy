/** The version-control backend seen by the release tasks: an in-memory
    repository of tags in history order plus the revision `HEAD` points at. */
module Repository {
  import opened Options
  import opened Text

  /** A content-addressed commit identifier. */
  type Revision = string

  datatype Tag = Tag(name: string, rev: Revision)

  /** `tags` is in history order, most recent first; `head` is the revision of `HEAD`. */
  datatype Repo = Repo(tags: seq<Tag>, head: Revision)

  /** Tag patterns: `Prefix(p)` is the glob `p*` the tasks build, `Exact(n)` a literal tag name. */
  datatype Pattern = Prefix(prefix: string) | Exact(name: string)

  predicate Matches(p: Pattern, name: string) {
    match p
    case Prefix(q) => StartsWith(name, q)
    case Exact(n) => name == n
  }

  /** Index `i` holds the most recent tag matching `p`. */
  ghost predicate IsLatest(tags: seq<Tag>, p: Pattern, i: nat) {
    && i < |tags|
    && Matches(p, tags[i].name)
    && forall j :: 0 <= j < i ==> !Matches(p, tags[j].name)
  }

  /** `name` is the name of the most recent tag matching `p`. */
  ghost predicate NamesLatest(tags: seq<Tag>, p: Pattern, name: string) {
    exists i: nat :: IsLatest(tags, p, i) && tags[i].name == name
  }

  /** Position of the most recent tag matching `p`, if any. */
  function FirstMatch(tags: seq<Tag>, p: Pattern): (r: Option<nat>)
    ensures r.Some? ==> IsLatest(tags, p, r.value)
    ensures r.None? ==> forall j :: 0 <= j < |tags| ==> !Matches(p, tags[j].name)
  {
    if |tags| == 0 then None
    else if Matches(p, tags[0].name) then Some(0)
    else match FirstMatch(tags[1..], p)
      case None => None
      case Some(k) => Some(k + 1)
  }

  /** `last_tag_matching`: the name of the most recent tag matching `p`, or nothing. */
  function LastTagMatching(repo: Repo, p: Pattern): (r: Option<string>)
    ensures r.None? <==> forall j :: 0 <= j < |repo.tags| ==> !Matches(p, repo.tags[j].name)
    ensures r.Some? ==> NamesLatest(repo.tags, p, r.value)
  {
    match FirstMatch(repo.tags, p)
    case None => None
    case Some(i) => Some(repo.tags[i].name)
  }

  const StagingPrefix := "staging-"
  const ProductionPrefix := "production-"

  /** `last_staging_tag`: the most recent tag whose name starts with `staging-`. */
  function LastStagingTag(repo: Repo): (r: Option<string>)
    ensures r.None? <==> forall j :: 0 <= j < |repo.tags| ==> !StartsWith(repo.tags[j].name, StagingPrefix)
    ensures r.Some? ==> StartsWith(r.value, StagingPrefix) && HasTag(repo, r.value)
    ensures r.Some? ==> NamesLatest(repo.tags, Prefix(StagingPrefix), r.value)
  {
    LastTagMatching(repo, Prefix(StagingPrefix))
  }

  /** `last_production_tag`: the most recent tag whose name starts with `production-`. */
  function LastProductionTag(repo: Repo): (r: Option<string>)
    ensures r.None? <==> forall j :: 0 <= j < |repo.tags| ==> !StartsWith(repo.tags[j].name, ProductionPrefix)
    ensures r.Some? ==> StartsWith(r.value, ProductionPrefix) && HasTag(repo, r.value)
    ensures r.Some? ==> NamesLatest(repo.tags, Prefix(ProductionPrefix), r.value)
  {
    LastTagMatching(repo, Prefix(ProductionPrefix))
  }

  predicate HasTag(repo: Repo, name: string) {
    exists i :: 0 <= i < |repo.tags| && repo.tags[i].name == name
  }

  /** The revision a tag name points at, or nothing when no such tag exists. */
  function Resolve(repo: Repo, name: string): (r: Option<Revision>)
    ensures r.Some? <==> HasTag(repo, name)
    ensures r.Some? ==> Tag(name, r.value) in repo.tags
  {
    match FirstMatch(repo.tags, Exact(name))
    case None => None
    case Some(i) => Some(repo.tags[i].rev)
  }

  /** `git tag -a <name> <rev>`: the new tag becomes the most recent one; git refuses a
      name that is already taken, and the tasks carry on, so the repository is then unchanged. */
  function CreateTag(repo: Repo, name: string, rev: Revision): (r: Repo)
    ensures r.head == repo.head
    ensures HasTag(repo, name) ==> r == repo
    ensures !HasTag(repo, name) ==> |r.tags| == |repo.tags| + 1 && r.tags[0] == Tag(name, rev) && r.tags[1..] == repo.tags
  {
    if HasTag(repo, name) then repo else Repo([Tag(name, rev)] + repo.tags, repo.head)
  }

  /** No two tags share a name, as git guarantees. */
  ghost predicate UniqueNames(tags: seq<Tag>) {
    forall i, j :: 0 <= i < j < |tags| ==> tags[i].name != tags[j].name
  }

  /** Creating a tag keeps names unique, makes the new name resolve to `rev`
      when it was free, and leaves every other name resolving as before. */
  lemma CreateTagResolves(repo: Repo, name: string, rev: Revision, other: string)
    requires UniqueNames(repo.tags)
    ensures UniqueNames(CreateTag(repo, name, rev).tags)
    ensures !HasTag(repo, name) ==> Resolve(CreateTag(repo, name, rev), name) == Some(rev)
    ensures other != name ==> Resolve(CreateTag(repo, name, rev), other) == Resolve(repo, other)
  {
    var r := CreateTag(repo, name, rev);
    if !HasTag(repo, name) {
      assert r.tags[0].name == name;
      if other != name {
        assert FirstMatch(r.tags, Exact(other)) == match FirstMatch(repo.tags, Exact(other))
          case None => None
          case Some(k) => Some(k + 1);
      }
    }
  }
}
