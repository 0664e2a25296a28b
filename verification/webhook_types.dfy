/** The documents the GitHub webhook handler (functions/src/fb-event-triggers/github.ts) reads
    and writes, with the Firestore collections as maps keyed by document id. Fresh document ids
    come from a counter, so "the first document a query returns" is the matching document with
    the least id. */
module WebhookTypes {
  import opened Wrappers

  type DocId = nat

  datatype PackageSource = Github | OtherSource(name: string)
  datatype PackageStatus = Inactive | OtherStatus(name: string)
  datatype PackageVisibility = Private | Public
  datatype ReleaseSetting = LatestAndPrerelease | OtherSetting(name: string)

  /** A repository as GitHub's webhook payload describes it. */
  datatype Repo = Repo(id: int, name: string, isPrivate: bool)

  /** A release as GitHub describes it; `details` stands for its remaining fields. */
  datatype ReleaseInfo = ReleaseInfo(id: int, draft: bool, details: string)

  /** A document of the `releases` collection; `repository` is the field the handler adds to
      releases it learns of through release events. */
  datatype ReleaseDoc = ReleaseDoc(repository: Option<int>, release: ReleaseInfo)

  /** A package's `sourceData`: the repository's own fields plus the handler's additions. */
  datatype GithubData = GithubData(
    repo: Repo,
    ownerId: int,
    installationId: int,
    releases: seq<DocId>,
    releaseSetting: ReleaseSetting)

  datatype Package = Package(
    id: DocId,
    name: string,
    status: PackageStatus,
    visibility: PackageVisibility,
    source: PackageSource,
    sourceData: GithubData,
    authorId: Option<DocId>,
    dependencyIds: seq<DocId>)

  datatype Account = Account(id: int, login: string, accountType: string)

  datatype Author = Author(
    id: DocId,
    name: string,
    githubId: int,
    accountType: string,
    installed: bool,
    installationId: int,
    admins: seq<int>)

  /** The body of a queued webhook delivery. */
  datatype Event = Event(
    action: string,
    installationId: int,
    account: Account,
    repositories: seq<Repo>,
    repositoriesAdded: seq<Repo>,
    repositoriesRemoved: seq<Repo>,
    repository: Repo,
    release: ReleaseInfo)

  /** The database: packages, releases and authors by document id, the ids of the
      `repositories` documents, the events stored for debugging (with their collection name),
      the queued deliveries, and the next fresh document id. */
  datatype Db = Db(
    packages: map<DocId, Package>,
    releases: map<DocId, ReleaseDoc>,
    authors: map<DocId, Author>,
    repositories: set<int>,
    stored: seq<(string, Event)>,
    queue: set<DocId>,
    nextId: nat)

  /** Every document id in use is below the next fresh id. */
  ghost predicate Fresh(db: Db)
  {
    && (forall k :: k in db.packages ==> k < db.nextId)
    && (forall k :: k in db.releases ==> k < db.nextId)
    && (forall k :: k in db.authors ==> k < db.nextId)
  }

  /** The least key below `bound`, from `from` on, whose document satisfies `p`. */
  function FirstFrom<V>(m: map<DocId, V>, p: V -> bool, from: nat, bound: nat): (r: Option<DocId>)
    ensures r.Some? ==> from <= r.value < bound && r.value in m && p(m[r.value])
    ensures r.Some? ==> forall k :: from <= k < r.value && k in m ==> !p(m[k])
    ensures r.None? ==> forall k :: from <= k < bound && k in m ==> !p(m[k])
    decreases bound - from
  {
    if from >= bound then None
    else if from in m && p(m[from]) then Some(from)
    else FirstFrom(m, p, from + 1, bound)
  }

  /** A query's first result: the matching document with the least id. */
  function First<V>(m: map<DocId, V>, p: V -> bool, bound: nat): (r: Option<DocId>)
    ensures r.Some? ==> r.value in m && p(m[r.value])
    ensures r.Some? ==> forall k :: k < r.value && k in m ==> !p(m[k])
    ensures (forall k :: k in m ==> k < bound) ==> (r.None? <==> forall k :: k in m ==> !p(m[k]))
  {
    FirstFrom(m, p, 0, bound)
  }
}
