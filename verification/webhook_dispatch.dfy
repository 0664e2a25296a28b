/** What one delivery does to the database, header by header, when the database accepts
    every write: installing the app creates a package doc per repository and the account's
    author doc, uninstalling it removes them, and deliveries the handler does not act on
    change nothing but the queue or the debugging store. */
module WebhookDispatch {
  import opened Wrappers
  import opened WebhookTypes
  import opened Webhook
  import opened WebhookProperties

  /** Some package doc, of any source, belongs to the repository. */
  ghost predicate HasPackage(db: Db, repoId: int)
  {
    exists k :: k in db.packages && db.packages[k].sourceData.repo.id == repoId
  }

  /** No GitHub package doc belongs to the repository. */
  ghost predicate NoGithubPackage(db: Db, repoId: int)
  {
    forall k :: k in db.packages ==> !IsGithubPackageOf(db.packages[k], repoId)
  }

  /** With fresh ids, the package query finds a doc exactly when one exists. */
  lemma FindAnyPackageFinds(db: Db, repoId: int)
    requires Fresh(db)
    ensures FindAnyPackage(db, repoId).Some? <==> HasPackage(db, repoId)
  {
    if FindAnyPackage(db, repoId).Some? {
      var k := FindAnyPackage(db, repoId).value;
      assert db.packages[k].sourceData.repo.id == repoId;
    }
  }

  /** After creating a package for a repository, one exists, and every repository that had a
      package still has one. */
  lemma CreatePackageProvides(mode: Mode, repo: Repo, event: Event, repoReleases: seq<ReleaseInfo>, db: Db)
    requires Sound(db)
    ensures var r := CreatePackage(mode, repo, event, repoReleases, db);
      HasPackage(r, repo.id) && forall rid :: HasPackage(db, rid) ==> HasPackage(r, rid)
  {
    var r := CreatePackage(mode, repo, event, repoReleases, db);
    FindAnyPackageFinds(db, repo.id);
    if FindAnyPackage(db, repo.id).None? {
      CreatePackageFields(mode, repo, event, repoReleases, db);
      assert r.packages[db.nextId].sourceData.repo.id == repo.id;
      forall rid | HasPackage(db, rid)
        ensures HasPackage(r, rid)
      {
        var k :| k in db.packages && db.packages[k].sourceData.repo.id == rid;
        assert r.packages[k] == db.packages[k];
      }
    }
  }

  /** An accepted first write is applied, and the rest run on what it left. */
  lemma ApplyAllStep(mode: Mode, plan: seq<Update>, event: Event, api: GithubApi,
                     accepts: Update -> bool, db: Db)
    requires |plan| > 0 && accepts(plan[0])
    ensures ApplyAll(mode, plan, event, api, accepts, db)
         == ApplyAll(mode, plan[1..], event, api, accepts, Apply(mode, plan[0], event, api, db))
  {
  }

  /** Accepted package creations, one per repository, leave a package for each of them. */
  lemma {:induction false} CreateEachProvides(mode: Mode, repos: seq<Repo>, event: Event, api: GithubApi,
                                              accepts: Update -> bool, db: Db)
    requires Sound(db)
    requires forall i :: 0 <= i < |repos| ==> accepts(CreatePackageFor(repos[i]))
    ensures var a := ApplyAll(mode, CreateEach(repos), event, api, accepts, db).db;
      Sound(a) && a.authors == db.authors &&
      (forall rid :: HasPackage(db, rid) ==> HasPackage(a, rid)) &&
      forall i :: 0 <= i < |repos| ==> HasPackage(a, repos[i].id)
    decreases |repos|
  {
    if |repos| > 0 {
      var plan := CreateEach(repos);
      var db' := CreatePackage(mode, repos[0], event, api.repoReleases(repos[0]), db);
      ApplyAllStep(mode, plan, event, api, accepts, db);
      CreatePackageSound(mode, repos[0], event, api.repoReleases(repos[0]), db);
      CreatePackageProvides(mode, repos[0], event, api.repoReleases(repos[0]), db);
      assert plan[1..] == CreateEach(repos[1..]);
      CreateEachProvides(mode, repos[1..], event, api, accepts, db');
      var a := ApplyAll(mode, plan, event, api, accepts, db).db;
      forall i | 0 <= i < |repos|
        ensures HasPackage(a, repos[i].id)
      {
        if i > 0 {
          assert repos[i] == repos[1..][i - 1];
        }
      }
    }
  }

  /** Accepted package removals, one per repository, leave no GitHub package for any of them
      and drop their `repositories` docs; other package docs stay as they were. */
  lemma {:induction false} RemoveEachRemoves(mode: Mode, repos: seq<Repo>, event: Event, api: GithubApi,
                                             accepts: Update -> bool, db: Db)
    requires forall i :: 0 <= i < |repos| ==> accepts(RemovePackageFor(repos[i]))
    ensures var a := ApplyAll(mode, RemoveEach(repos), event, api, accepts, db).db;
      a.authors == db.authors && a.nextId == db.nextId &&
      (forall k :: k in a.packages ==> k in db.packages && a.packages[k] == db.packages[k]) &&
      a.repositories <= db.repositories &&
      forall i :: 0 <= i < |repos| ==> NoGithubPackage(a, repos[i].id) && repos[i].id !in a.repositories
    decreases |repos|
  {
    if |repos| > 0 {
      var plan := RemoveEach(repos);
      var db' := RemovePackage(repos[0], db);
      ApplyAllStep(mode, plan, event, api, accepts, db);
      assert plan[1..] == RemoveEach(repos[1..]);
      RemoveEachRemoves(mode, repos[1..], event, api, accepts, db');
      assert forall i :: 1 <= i < |repos| ==> repos[i] == repos[1..][i - 1];
    }
  }

  /** Accepted writes compose: a plan that starts with accepted writes applies them and then
      the rest on what they left. */
  lemma {:induction false} ApplyAllAppend(mode: Mode, a: seq<Update>, b: seq<Update>, event: Event,
                                          api: GithubApi, accepts: Update -> bool, db: Db)
    requires forall i :: 0 <= i < |a| ==> accepts(a[i])
    ensures ApplyAll(mode, a + b, event, api, accepts, db).db
         == ApplyAll(mode, b, event, api, accepts, ApplyAll(mode, a, event, api, accepts, db).db).db
    decreases |a|
  {
    if |a| == 0 {
      assert a + b == b;
    } else {
      assert (a + b)[0] == a[0];
      assert (a + b)[1..] == a[1..] + b;
      ApplyAllAppend(mode, a[1..], b, event, api, accepts, Apply(mode, a[0], event, api, db));
    }
  }

  /** With fresh ids, an author doc for the account makes the author query succeed. */
  lemma FindAuthorFinds(db: Db, accountId: int, k: DocId)
    requires Fresh(db) && k in db.authors && db.authors[k].githubId == accountId
    ensures FindAuthor(db, accountId).Some?
  {
  }

  /** Processing a delivery leaves the documents its writes produced; only the queue moves. */
  lemma ProcessOnlyDequeues(mode: Mode, header: string, event: Event, api: GithubApi,
                            accepts: Update -> bool, dequeued: bool, queued: DocId, db: Db)
    ensures var p := ProcessGithubEvent(mode, header, event, api, accepts, dequeued, queued, db);
      p.db == ApplyAll(mode, Plan(header, event), event, api, accepts, db).db.(queue := p.db.queue)
  {
  }

  /** Sound depends on the documents and the id counter only. */
  lemma SoundIgnoresQueue(a: Db, b: Db)
    requires Sound(a) && b == a.(queue := b.queue)
    ensures Sound(b)
  {
  }

  /** An accepted installation/created plan writes the author doc first and then creates
      one package per repository. */
  lemma CreatedPlanSplits(mode: Mode, event: Event, api: GithubApi, accepts: Update -> bool, db: Db)
    requires event.action == "created"
    requires forall u :: u in Plan("installation", event) ==> accepts(u)
    ensures forall i :: 0 <= i < |event.repositories| ==> accepts(CreatePackageFor(event.repositories[i]))
    ensures ApplyAll(mode, Plan("installation", event), event, api, accepts, db)
         == ApplyAll(mode, CreateEach(event.repositories), event, api, accepts, CreateAuthor(event, api.orgAdmins, db))
  {
    var repos := event.repositories;
    var plan := Plan("installation", event);
    assert plan[0] == CreateAuthorFor && plan[1..] == CreateEach(repos);
    forall i | 0 <= i < |repos|
      ensures accepts(CreatePackageFor(repos[i]))
    {
      assert plan[i + 1] == CreatePackageFor(repos[i]);
    }
    ApplyAllStep(mode, plan, event, api, accepts, db);
  }

  /** installation/created, every write accepted: the account has an author doc and each
      installed repository has a package doc; existing packages stay. */
  lemma InstallationCreatedProvides(mode: Mode, event: Event, api: GithubApi, accepts: Update -> bool,
                                    dequeued: bool, queued: DocId, db: Db)
    requires Sound(db) && event.action == "created"
    requires forall u :: u in Plan("installation", event) ==> accepts(u)
    ensures var p := ProcessGithubEvent(mode, "installation", event, api, accepts, dequeued, queued, db);
      Sound(p.db) && FindAuthor(p.db, event.account.id).Some? &&
      (forall rid :: HasPackage(db, rid) ==> HasPackage(p.db, rid)) &&
      forall i :: 0 <= i < |event.repositories| ==> FindAnyPackage(p.db, event.repositories[i].id).Some?
  {
    var repos := event.repositories;
    var authored := CreateAuthor(event, api.orgAdmins, db);
    CreatedPlanSplits(mode, event, api, accepts, db);
    ApplySound(mode, CreateAuthorFor, event, api, db);
    assert authored.packages == db.packages;
    CreateEachProvides(mode, repos, event, api, accepts, authored);
    var applied := ApplyAll(mode, CreateEach(repos), event, api, accepts, authored).db;
    var p := ProcessGithubEvent(mode, "installation", event, api, accepts, dequeued, queued, db);
    ProcessOnlyDequeues(mode, "installation", event, api, accepts, dequeued, queued, db);
    assert p.db == applied.(queue := p.db.queue);
    SoundIgnoresQueue(applied, p.db);
    forall rid | HasPackage(db, rid)
      ensures HasPackage(p.db, rid)
    {
      assert HasPackage(authored, rid);
      assert HasPackage(applied, rid);
      var k :| k in applied.packages && applied.packages[k].sourceData.repo.id == rid;
      assert p.db.packages[k] == applied.packages[k];
    }
    FindAuthorFinds(p.db, event.account.id, db.nextId);
    forall i | 0 <= i < |repos|
      ensures FindAnyPackage(p.db, repos[i].id).Some?
    {
      FindAnyPackageFinds(p.db, repos[i].id);
    }
  }

  /** installation_repositories/added, every write accepted: each added repository has a
      package doc; existing packages stay. */
  lemma RepositoriesAddedProvides(mode: Mode, event: Event, api: GithubApi, accepts: Update -> bool,
                                  dequeued: bool, queued: DocId, db: Db)
    requires Sound(db) && event.action == "added"
    requires forall u :: u in Plan("installation_repositories", event) ==> accepts(u)
    ensures var p := ProcessGithubEvent(mode, "installation_repositories", event, api, accepts, dequeued, queued, db);
      Sound(p.db) && p.db.authors == db.authors &&
      (forall rid :: HasPackage(db, rid) ==> HasPackage(p.db, rid)) &&
      forall i :: 0 <= i < |event.repositoriesAdded| ==> FindAnyPackage(p.db, event.repositoriesAdded[i].id).Some?
  {
    var repos := event.repositoriesAdded;
    var plan := Plan("installation_repositories", event);
    forall i | 0 <= i < |repos|
      ensures accepts(CreatePackageFor(repos[i]))
    {
      assert plan[i] == CreatePackageFor(repos[i]);
    }
    CreateEachProvides(mode, repos, event, api, accepts, db);
    var applied := ApplyAll(mode, CreateEach(repos), event, api, accepts, db).db;
    var p := ProcessGithubEvent(mode, "installation_repositories", event, api, accepts, dequeued, queued, db);
    ProcessOnlyDequeues(mode, "installation_repositories", event, api, accepts, dequeued, queued, db);
    assert p.db == applied.(queue := p.db.queue);
    SoundIgnoresQueue(applied, p.db);
    forall rid | HasPackage(db, rid)
      ensures HasPackage(p.db, rid)
    {
      assert HasPackage(applied, rid);
      var k :| k in applied.packages && applied.packages[k].sourceData.repo.id == rid;
      assert p.db.packages[k] == applied.packages[k];
    }
    forall i | 0 <= i < |repos|
      ensures FindAnyPackage(p.db, repos[i].id).Some?
    {
      FindAnyPackageFinds(p.db, repos[i].id);
    }
  }

  /** installation/deleted, every write accepted: no GitHub package doc and no `repositories`
      doc is left for any repository of the installation, and the account's first author doc
      is gone; no other package doc changes. */
  lemma InstallationDeletedRemoves(mode: Mode, event: Event, api: GithubApi, accepts: Update -> bool,
                                   dequeued: bool, queued: DocId, db: Db)
    requires event.action == "deleted"
    requires forall u :: u in Plan("installation", event) ==> accepts(u)
    ensures var p := ProcessGithubEvent(mode, "installation", event, api, accepts, dequeued, queued, db);
      (forall k :: k in p.db.packages ==> k in db.packages && p.db.packages[k] == db.packages[k]) &&
      (forall i :: 0 <= i < |event.repositories| ==>
         NoGithubPackage(p.db, event.repositories[i].id) && event.repositories[i].id !in p.db.repositories) &&
      (FindAuthor(db, event.account.id).Some? ==> FindAuthor(db, event.account.id).value !in p.db.authors)
  {
    var repos := event.repositories;
    var plan := Plan("installation", event);
    assert plan == RemoveEach(repos) + [RemoveAuthorFor];
    forall i | 0 <= i < |repos|
      ensures accepts(RemovePackageFor(repos[i]))
    {
      assert plan[i] == RemovePackageFor(repos[i]);
    }
    assert accepts(plan[|repos|]);
    RemoveEachRemoves(mode, repos, event, api, accepts, db);
    ApplyAllAppend(mode, RemoveEach(repos), [RemoveAuthorFor], event, api, accepts, db);
    var removed := ApplyAll(mode, RemoveEach(repos), event, api, accepts, db).db;
    assert FindAuthor(removed, event.account.id) == FindAuthor(db, event.account.id);
    ApplyAllStep(mode, [RemoveAuthorFor], event, api, accepts, removed);
    assert [RemoveAuthorFor][1..] == [];
    var applied := RemoveAuthor(event, removed);
    ProcessOnlyDequeues(mode, "installation", event, api, accepts, dequeued, queued, db);
  }

  /** installation_repositories/removed, every write accepted: no GitHub package doc and no
      `repositories` doc is left for any removed repository; no other package doc changes. */
  lemma RepositoriesRemovedRemoves(mode: Mode, event: Event, api: GithubApi, accepts: Update -> bool,
                                   dequeued: bool, queued: DocId, db: Db)
    requires event.action == "removed"
    requires forall u :: u in Plan("installation_repositories", event) ==> accepts(u)
    ensures var p := ProcessGithubEvent(mode, "installation_repositories", event, api, accepts, dequeued, queued, db);
      p.db.authors == db.authors &&
      (forall k :: k in p.db.packages ==> k in db.packages && p.db.packages[k] == db.packages[k]) &&
      forall i :: 0 <= i < |event.repositoriesRemoved| ==>
        NoGithubPackage(p.db, event.repositoriesRemoved[i].id) && event.repositoriesRemoved[i].id !in p.db.repositories
  {
    var repos := event.repositoriesRemoved;
    var plan := Plan("installation_repositories", event);
    forall i | 0 <= i < |repos|
      ensures accepts(RemovePackageFor(repos[i]))
    {
      assert plan[i] == RemovePackageFor(repos[i]);
    }
    RemoveEachRemoves(mode, repos, event, api, accepts, db);
  }

  /** An installation or installation_repositories delivery with any other action changes no
      document; it is handled exactly when its queued doc is deleted. */
  lemma IgnoredActionChangesNothing(mode: Mode, header: string, event: Event, api: GithubApi,
                                    accepts: Update -> bool, dequeued: bool, queued: DocId, db: Db)
    requires header == "installation" || header == "installation_repositories"
    requires header == "installation" ==> event.action != "created" && event.action != "deleted"
    requires header == "installation_repositories" ==> event.action != "added" && event.action != "removed"
    ensures var p := ProcessGithubEvent(mode, header, event, api, accepts, dequeued, queued, db);
      p.db == db.(queue := p.db.queue) && (p.handled <==> dequeued)
  {
  }

  /** A delivery under any other header, accepted, is stored under the header's name and
      changes no package, release or author doc. */
  lemma OtherHeaderStored(mode: Mode, header: string, event: Event, api: GithubApi,
                          accepts: Update -> bool, dequeued: bool, queued: DocId, db: Db)
    requires header != "installation" && header != "installation_repositories" && header != "release"
    requires accepts(StoreEvent(header))
    ensures var p := ProcessGithubEvent(mode, header, event, api, accepts, dequeued, queued, db);
      p.db == db.(stored := db.stored + [(header, event)], queue := p.db.queue)
  {
    ApplyAllStep(mode, [StoreEvent(header)], event, api, accepts, db);
  }

  /** A release delivery changes no author, `repositories` doc or stored event, and no
      package doc but the repository's first GitHub package doc. */
  lemma ReleaseTouchesOnlyReleases(mode: Mode, event: Event, api: GithubApi,
                                   accepts: Update -> bool, dequeued: bool, queued: DocId, db: Db)
    ensures var p := ProcessGithubEvent(mode, "release", event, api, accepts, dequeued, queued, db);
      p.db.authors == db.authors && p.db.repositories == db.repositories && p.db.stored == db.stored &&
      p.db.packages.Keys == db.packages.Keys &&
      forall k :: k in db.packages && FindGithubPackage(db, event.repository.id) != Some(k) ==>
        p.db.packages[k] == db.packages[k]
  {
    var plan := [AddOrUpdateRelease];
    if accepts(AddOrUpdateRelease) {
      ApplyAllStep(mode, plan, event, api, accepts, db);
    }
  }
}
