/** The webhook handler's bookkeeping (functions/src/fb-event-triggers/github.ts): release
    docs, package docs, authors, and the dispatch of one queued delivery.

    `Mode` matters only where the code and its evident intent part ways: as written,
    `_createReleaseDocs` stores GitHub's release objects unchanged, without the `repository`
    field that `_removePackage` and `_addOrUpdateReleaseDoc` query on; the intended variant
    tags them with the repository id. */
module Webhook {
  import opened Wrappers
  import opened WebhookTypes

  /** The `repository` field a release doc created at package creation carries. */
  function ImportTag(mode: Mode, repoId: int): Option<int>
  {
    if mode == Intended then Some(repoId) else None
  }

  datatype Created = Created(db: Db, ids: seq<DocId>)

  /** _createReleaseDocs: one new release doc per release, in order; returns their ids. */
  function CreateReleaseDocs(mode: Mode, repoId: int, releases: seq<ReleaseInfo>, db: Db): (c: Created)
    ensures |c.ids| == |releases| && c.db.nextId == db.nextId + |releases|
    ensures forall i :: 0 <= i < |releases| ==> c.ids[i] == db.nextId + i
    ensures forall i :: 0 <= i < |releases| ==>
      c.ids[i] in c.db.releases && c.db.releases[c.ids[i]] == ReleaseDoc(ImportTag(mode, repoId), releases[i])
    ensures forall k :: k in c.db.releases <==> k in db.releases || db.nextId <= k < c.db.nextId
    ensures forall k :: k in db.releases && k < db.nextId ==> c.db.releases[k] == db.releases[k]
    ensures c.db == db.(releases := c.db.releases, nextId := c.db.nextId)
    decreases |releases|
  {
    if |releases| == 0 then Created(db, [])
    else
      var id := db.nextId;
      var next := db.(releases := db.releases[id := ReleaseDoc(ImportTag(mode, repoId), releases[0])], nextId := id + 1);
      var rest := CreateReleaseDocs(mode, repoId, releases[1..], next);
      assert forall i :: 1 <= i < |releases| ==> releases[i] == releases[1..][i - 1];
      Created(rest.db, [id] + rest.ids)
  }

  /** The first package doc, of any source, for a repository. */
  function FindAnyPackage(db: Db, repoId: int): Option<DocId>
  {
    First(db.packages, (p: Package) => p.sourceData.repo.id == repoId, db.nextId)
  }

  predicate IsGithubPackageOf(p: Package, repoId: int)
  {
    p.source == Github && p.sourceData.repo.id == repoId
  }

  /** The first GitHub package doc for a repository. */
  function FindGithubPackage(db: Db, repoId: int): Option<DocId>
  {
    First(db.packages, (p: Package) => IsGithubPackageOf(p, repoId), db.nextId)
  }

  /** The first release doc for a given repository and GitHub release id. */
  function FindReleaseDoc(db: Db, repoId: int, releaseId: int): Option<DocId>
  {
    First(db.releases, (d: ReleaseDoc) => d.repository == Some(repoId) && d.release.id == releaseId, db.nextId)
  }

  /** The first author doc for a GitHub account. */
  function FindAuthor(db: Db, accountId: int): Option<DocId>
  {
    First(db.authors, (a: Author) => a.githubId == accountId, db.nextId)
  }

  /** The package doc _createPackage writes. */
  function NewPackage(id: DocId, repo: Repo, event: Event, releaseIds: seq<DocId>, authorId: Option<DocId>): Package
  {
    Package(
      id, repo.name, Inactive,
      if repo.isPrivate then Private else Public,
      Github,
      GithubData(repo, event.account.id, event.installationId, releaseIds, LatestAndPrerelease),
      authorId, [])
  }

  /** _createPackage: nothing when a package doc for the repository exists already; otherwise
      a package doc under a fresh id, with release docs for the repository's existing
      releases (`repoReleases`, what getRepoReleases returns). */
  function CreatePackage(mode: Mode, repo: Repo, event: Event, repoReleases: seq<ReleaseInfo>, db: Db): (r: Db)
    ensures FindAnyPackage(db, repo.id).Some? ==> r == db
    ensures FindAnyPackage(db, repo.id).None? ==> r.packages.Keys == db.packages.Keys + {db.nextId}
    ensures r.authors == db.authors && r.repositories == db.repositories && r.queue == db.queue
  {
    if FindAnyPackage(db, repo.id).Some? then db
    else
      var id := db.nextId;
      var created := CreateReleaseDocs(mode, repo.id, repoReleases, db.(nextId := id + 1));
      var pkg := NewPackage(id, repo, event, created.ids, FindAuthor(db, event.account.id));
      created.db.(packages := created.db.packages[id := pkg])
  }

  /** _removePackage: deletes every GitHub package doc for the repository, every release doc
      whose `repository` is the repository, and the repository's `repositories` doc. */
  function RemovePackage(repo: Repo, db: Db): (r: Db)
    ensures forall k :: k in r.packages <==> k in db.packages && !IsGithubPackageOf(db.packages[k], repo.id)
    ensures forall k :: k in r.releases <==> k in db.releases && db.releases[k].repository != Some(repo.id)
    ensures forall k :: k in r.packages ==> r.packages[k] == db.packages[k]
    ensures forall k :: k in r.releases ==> r.releases[k] == db.releases[k]
    ensures r.repositories == db.repositories - {repo.id}
    ensures r == db.(packages := r.packages, releases := r.releases, repositories := r.repositories)
  {
    db.(packages := map k | k in db.packages && !IsGithubPackageOf(db.packages[k], repo.id) :: db.packages[k],
        releases := map k | k in db.releases && db.releases[k].repository != Some(repo.id) :: db.releases[k],
        repositories := db.repositories - {repo.id})
  }

  /** `ids.filter(id => id !== x)` */
  function Without(ids: seq<DocId>, x: DocId): (r: seq<DocId>)
    ensures x !in r
    ensures forall y :: y in r <==> y in ids && y != x
    ensures |r| <= |ids|
    decreases |ids|
  {
    if |ids| == 0 then []
    else if ids[0] == x then Without(ids[1..], x)
    else [ids[0]] + Without(ids[1..], x)
  }

  /** Filtering keeps the relative order: it distributes over concatenation. */
  lemma {:induction false} WithoutAppend(a: seq<DocId>, b: seq<DocId>, x: DocId)
    ensures Without(a + b, x) == Without(a, x) + Without(b, x)
    decreases |a|
  {
    if |a| == 0 {
      assert a + b == b;
    } else {
      assert (a + b)[0] == a[0];
      assert (a + b)[1..] == a[1..] + b;
      WithoutAppend(a[1..], b, x);
    }
  }

  function WithReleases(p: Package, ids: seq<DocId>): Package
  {
    p.(sourceData := p.sourceData.(releases := ids))
  }

  /** _addOrUpdateReleaseDoc. */
  function AddOrUpdateReleaseDoc(event: Event, db: Db): (r: Db)
    ensures FindGithubPackage(db, event.repository.id).None? ==> r == db
    ensures r.authors == db.authors && r.repositories == db.repositories && r.queue == db.queue
    ensures r.stored == db.stored
    ensures r.packages.Keys == db.packages.Keys
    ensures forall k :: k in db.packages && FindGithubPackage(db, event.repository.id) != Some(k) ==>
      r.packages[k] == db.packages[k]
    ensures FindGithubPackage(db, event.repository.id).Some? ==>
      var pk := FindGithubPackage(db, event.repository.id).value;
      r.packages[pk] == WithReleases(db.packages[pk], r.packages[pk].sourceData.releases)
  {
    var repoId := event.repository.id;
    var existing := FindReleaseDoc(db, repoId, event.release.id);
    match FindGithubPackage(db, repoId)
    case None => db
    case Some(pk) =>
      var pkg := db.packages[pk];
      var ids := pkg.sourceData.releases;
      match existing
      case None =>
        if event.release.draft then db
        else if event.action == "published" then
          var rid := db.nextId;
          db.(releases := db.releases[rid := ReleaseDoc(Some(repoId), event.release)],
              packages := db.packages[pk := WithReleases(pkg, ids + [rid])],
              nextId := rid + 1)
        else db
      case Some(rk) =>
        if event.action == "deleted" then
          db.(releases := db.releases - {rk},
              packages := db.packages[pk := WithReleases(pkg, Without(ids, rk))])
        else if event.release.draft then db
        else db.(releases := db.releases[rk := ReleaseDoc(db.releases[rk].repository, event.release)])
  }

  /** The admins _createAuthor records: the account itself for a user, the organisation's
      admins (`orgAdmins`, what getOrganizationAdmins returns) for an organisation, else none. */
  function AdminIds(account: Account, orgAdmins: seq<int>): (admins: seq<int>)
    ensures account.accountType == "User" ==> admins == [account.id]
    ensures account.accountType == "Organization" ==> admins == orgAdmins
    ensures account.accountType != "User" && account.accountType != "Organization" ==> admins == []
  {
    if account.accountType == "User" then [account.id]
    else if account.accountType == "Organization" then orgAdmins
    else []
  }

  /** _createAuthor: a new author doc for the installation's account, under a fresh id; no
      other document changes. */
  function CreateAuthor(event: Event, orgAdmins: seq<int>, db: Db): (r: Db)
    ensures r.packages == db.packages && r.releases == db.releases
    ensures db.nextId in r.authors && r.authors[db.nextId].githubId == event.account.id
    ensures r == db.(authors := db.authors[db.nextId := r.authors[db.nextId]], nextId := db.nextId + 1)
    ensures r.authors[db.nextId].admins == AdminIds(event.account, orgAdmins)
  {
    var id := db.nextId;
    var author := Author(id, event.account.login, event.account.id, event.account.accountType,
                         true, event.installationId, AdminIds(event.account, orgAdmins));
    db.(authors := db.authors[id := author], nextId := id + 1)
  }

  /** _removeAuthor: deletes the first author doc for the account, if there is one. */
  function RemoveAuthor(event: Event, db: Db): (r: Db)
    ensures r == db.(authors := r.authors)
    ensures forall k :: k in r.authors ==> k in db.authors && r.authors[k] == db.authors[k]
    ensures forall k :: k in db.authors && k !in r.authors ==>
      db.authors[k].githubId == event.account.id &&
      forall j :: j in db.authors && j < k ==> db.authors[j].githubId != event.account.id
    ensures FindAuthor(db, event.account.id).None? ==> r == db
    ensures FindAuthor(db, event.account.id).Some? ==>
      r.authors == db.authors - {FindAuthor(db, event.account.id).value}
  {
    match FindAuthor(db, event.account.id)
    case None => db
    case Some(k) => db.(authors := db.authors - {k})
  }

  /** One write the handler issues for a delivery. */
  datatype Update =
    | CreateAuthorFor
    | CreatePackageFor(repo: Repo)
    | RemovePackageFor(repo: Repo)
    | RemoveAuthorFor
    | AddOrUpdateRelease
    | StoreEvent(collection: string)

  function CreateEach(repos: seq<Repo>): (us: seq<Update>)
    ensures |us| == |repos| && forall i :: 0 <= i < |repos| ==> us[i] == CreatePackageFor(repos[i])
  {
    seq(|repos|, i requires 0 <= i < |repos| => CreatePackageFor(repos[i]))
  }

  function RemoveEach(repos: seq<Repo>): (us: seq<Update>)
    ensures |us| == |repos| && forall i :: 0 <= i < |repos| ==> us[i] == RemovePackageFor(repos[i])
  {
    seq(|repos|, i requires 0 <= i < |repos| => RemovePackageFor(repos[i]))
  }

  /** The switch of processGithubEvent: the writes one delivery asks for, in order. `header`
      is the `x-github-event` header, "" when it is missing. */
  function Plan(header: string, event: Event): (plan: seq<Update>)
    ensures header == "release" ==> plan == [AddOrUpdateRelease]
    ensures header != "installation" && header != "installation_repositories" && header != "release" ==>
      plan == [StoreEvent(header)]
    ensures header == "installation" ==>
      plan == (if event.action == "created" then [CreateAuthorFor] + CreateEach(event.repositories)
               else if event.action == "deleted" then RemoveEach(event.repositories) + [RemoveAuthorFor]
               else [])
    ensures header == "installation_repositories" ==>
      plan == (if event.action == "added" then CreateEach(event.repositoriesAdded)
               else if event.action == "removed" then RemoveEach(event.repositoriesRemoved)
               else [])
  {
    if header == "installation" then
      if event.action == "created" then [CreateAuthorFor] + CreateEach(event.repositories)
      else if event.action == "deleted" then RemoveEach(event.repositories) + [RemoveAuthorFor]
      else []
    else if header == "installation_repositories" then
      if event.action == "added" then CreateEach(event.repositoriesAdded)
      else if event.action == "removed" then RemoveEach(event.repositoriesRemoved)
      else []
    else if header == "release" then [AddOrUpdateRelease]
    else [StoreEvent(header)]
  }

  /** What the handler learns from GitHub while writing: a repository's releases
      (getRepoReleases) and an organisation's admins (getOrganizationAdmins). */
  datatype GithubApi = GithubApi(repoReleases: Repo -> seq<ReleaseInfo>, orgAdmins: seq<int>)

  function Apply(mode: Mode, u: Update, event: Event, api: GithubApi, db: Db): Db
  {
    match u
    case CreateAuthorFor => CreateAuthor(event, api.orgAdmins, db)
    case CreatePackageFor(repo) => CreatePackage(mode, repo, event, api.repoReleases(repo), db)
    case RemovePackageFor(repo) => RemovePackage(repo, db)
    case RemoveAuthorFor => RemoveAuthor(event, db)
    case AddOrUpdateRelease => AddOrUpdateReleaseDoc(event, db)
    case StoreEvent(collection) => db.(stored := db.stored + [(collection, event)])
  }

  datatype Applied = Applied(db: Db, ok: bool)

  /** The writes in order; a write the database rejects (`accepts` is false) changes nothing.
      The author doc is written before the others are issued, so its rejection stops the rest. */
  function ApplyAll(mode: Mode, plan: seq<Update>, event: Event, api: GithubApi, accepts: Update -> bool, db: Db): (a: Applied)
    ensures a.ok <==> forall i :: 0 <= i < |plan| ==> accepts(plan[i])
    ensures a.db.queue == db.queue
    decreases |plan|
  {
    if |plan| == 0 then Applied(db, true)
    else if !accepts(plan[0]) && plan[0] == CreateAuthorFor then Applied(db, false)
    else
      var db' := if accepts(plan[0]) then Apply(mode, plan[0], event, api, db) else db;
      var rest := ApplyAll(mode, plan[1..], event, api, accepts, db');
      assert forall i :: 1 <= i < |plan| ==> plan[i] == plan[1..][i - 1];
      Applied(rest.db, accepts(plan[0]) && rest.ok)
  }

  datatype Processed = Processed(db: Db, handled: bool)

  /** processGithubEvent for the queued delivery `queued`: once every write succeeded the
      queued doc is deleted, which the database may reject too (`dequeued` is false); the
      delivery counts as handled exactly when both succeeded. */
  function ProcessGithubEvent(mode: Mode, header: string, event: Event, api: GithubApi,
                              accepts: Update -> bool, dequeued: bool, queued: DocId, db: Db): (p: Processed)
    ensures p.handled <==> dequeued && forall u :: u in Plan(header, event) ==> accepts(u)
    ensures p.handled ==> p.db.queue == db.queue - {queued}
    ensures !p.handled ==> p.db.queue == db.queue
  {
    var applied := ApplyAll(mode, Plan(header, event), event, api, accepts, db);
    if applied.ok && dequeued then Processed(applied.db.(queue := applied.db.queue - {queued}), true)
    else Processed(applied.db, false)
  }
}
