/** What the webhook bookkeeping keeps true: document ids are fresh, each repository has at most
    one package doc, and every id in a GitHub package's release array names a release doc of
    that repository. The rules for release events, duplicate suppression and cascade removal
    are stated here against that invariant. */
module WebhookProperties {
  import opened Wrappers
  import opened WebhookTypes
  import opened Webhook

  ghost predicate UniquePackages(db: Db)
  {
    forall k1, k2 ::
      (k1 in db.packages && k2 in db.packages &&
       db.packages[k1].sourceData.repo.id == db.packages[k2].sourceData.repo.id) ==> k1 == k2
  }

  /** Entry `i` of package `k`'s release array names a release doc of the package's repository. */
  ghost predicate Linked(db: Db, k: DocId, i: nat)
    requires k in db.packages && i < |db.packages[k].sourceData.releases|
  {
    var r := db.packages[k].sourceData.releases[i];
    r in db.releases && db.releases[r].repository == Some(db.packages[k].sourceData.repo.id)
  }

  ghost predicate ReleasesLinked(db: Db)
  {
    forall k, i ::
      (k in db.packages && db.packages[k].source == Github &&
       0 <= i < |db.packages[k].sourceData.releases|) ==> Linked(db, k, i)
  }

  ghost predicate Consistent(db: Db)
  {
    Fresh(db) && UniquePackages(db) && ReleasesLinked(db)
  }

  /** The empty database is consistent. */
  lemma EmptyIsConsistent(queue: set<DocId>)
    ensures Consistent(Db(map[], map[], map[], {}, [], queue, 0))
  {
  }

  /** No package doc of any source exists for the repository. */
  ghost predicate NoPackageFor(db: Db, repoId: int)
  {
    forall k :: k in db.packages ==> db.packages[k].sourceData.repo.id != repoId
  }

  /** A new package for a repository without one gets the next id and the documented fields,
      and its release array names, in input order, one new release doc per existing release. */
  lemma CreatePackageFields(mode: Mode, repo: Repo, event: Event, repoReleases: seq<ReleaseInfo>, db: Db)
    requires Fresh(db) && NoPackageFor(db, repo.id)
    ensures var r := CreatePackage(mode, repo, event, repoReleases, db);
      var p := r.packages[db.nextId];
      && db.nextId in r.packages
      && p.status == Inactive
      && (p.visibility == Private <==> repo.isPrivate)
      && p.source == Github
      && p.sourceData.repo == repo
      && p.sourceData.releaseSetting == LatestAndPrerelease
      && p.dependencyIds == []
      && |p.sourceData.releases| == |repoReleases|
      && (forall i :: 0 <= i < |repoReleases| ==>
            p.sourceData.releases[i] in r.releases &&
            r.releases[p.sourceData.releases[i]] == ReleaseDoc(ImportTag(mode, repo.id), repoReleases[i]))
      && (forall k :: k in db.packages ==> k in r.packages && r.packages[k] == db.packages[k])
  {
  }

  /** Creating a package keeps ids fresh. */
  lemma CreatePackageFresh(mode: Mode, repo: Repo, event: Event, repoReleases: seq<ReleaseInfo>, db: Db)
    requires Fresh(db)
    ensures var r := CreatePackage(mode, repo, event, repoReleases, db);
      Fresh(r) && r.nextId >= db.nextId
  {
  }

  /** Duplicate suppression: once a package for the repository exists, creating it again (with
      any event and release list) changes nothing, so a replayed delivery yields one package. */
  lemma CreatePackageTwice(mode: Mode, repo: Repo, e1: Event, rs1: seq<ReleaseInfo>,
                           e2: Event, rs2: seq<ReleaseInfo>, db: Db)
    requires Fresh(db)
    ensures var once := CreatePackage(mode, repo, e1, rs1, db);
      CreatePackage(mode, repo, e2, rs2, once) == once
  {
    var once := CreatePackage(mode, repo, e1, rs1, db);
    CreatePackageFresh(mode, repo, e1, rs1, db);
    if FindAnyPackage(db, repo.id).None? {
      assert once.packages[db.nextId].sourceData.repo.id == repo.id;
    } else {
      assert once == db;
    }
  }

  /** Intended: creating a package keeps the database consistent. */
  lemma CreatePackageConsistent(repo: Repo, event: Event, repoReleases: seq<ReleaseInfo>, db: Db)
    requires Consistent(db)
    ensures Consistent(CreatePackage(Intended, repo, event, repoReleases, db))
  {
    var r := CreatePackage(Intended, repo, event, repoReleases, db);
    CreatePackageFresh(Intended, repo, event, repoReleases, db);
    if FindAnyPackage(db, repo.id).None? {
      var id := db.nextId;
      CreatePackageFields(Intended, repo, event, repoReleases, db);
      forall k, i | k in r.packages && r.packages[k].source == Github &&
                    0 <= i < |r.packages[k].sourceData.releases|
        ensures Linked(r, k, i)
      {
        if k != id {
          assert Linked(db, k, i);
        }
      }
    }
  }

  /** Removing a package keeps the database consistent. */
  lemma RemovePackageConsistent(repo: Repo, db: Db)
    requires Consistent(db)
    ensures Consistent(RemovePackage(repo, db))
  {
    var r := RemovePackage(repo, db);
    forall k, i | k in r.packages && r.packages[k].source == Github &&
                  0 <= i < |r.packages[k].sourceData.releases|
      ensures Linked(r, k, i)
    {
      assert Linked(db, k, i);
    }
  }

  /** Intended: the release docs created for a repository are exactly those a removal of that
      repository deletes, when none of the earlier docs belongs to it. */
  lemma ImportedDocsAreRemovable(repoId: int, repoReleases: seq<ReleaseInfo>, d: Db)
    requires forall k :: k in d.releases ==> k < d.nextId && d.releases[k].repository != Some(repoId)
    ensures var c := CreateReleaseDocs(Intended, repoId, repoReleases, d).db;
      (map k | k in c.releases && c.releases[k].repository != Some(repoId) :: c.releases[k]) == d.releases
  {
    var docs := CreateReleaseDocs(Intended, repoId, repoReleases, d);
    var c := docs.db;
    forall k | k in c.releases && k !in d.releases
      ensures c.releases[k].repository == Some(repoId)
    {
      var i := k - d.nextId;
      assert docs.ids[i] == k;
    }
  }

  /** Intended: removing a package just created for a repository without package or release
      docs restores every collection except the `repositories` doc and the id counter. */
  lemma RemoveUndoesCreateWhenIntended(repo: Repo, event: Event, repoReleases: seq<ReleaseInfo>, db: Db)
    requires Fresh(db) && NoPackageFor(db, repo.id)
    requires forall k :: k in db.releases ==> db.releases[k].repository != Some(repo.id)
    ensures var created := CreatePackage(Intended, repo, event, repoReleases, db);
      RemovePackage(repo, created) ==
        db.(repositories := db.repositories - {repo.id}, nextId := created.nextId)
  {
    var id := db.nextId;
    var c := CreateReleaseDocs(Intended, repo.id, repoReleases, db.(nextId := id + 1));
    var pkg := NewPackage(id, repo, event, c.ids, FindAuthor(db, event.account.id));
    var created := CreatePackage(Intended, repo, event, repoReleases, db);
    assert FindAnyPackage(db, repo.id).None?;
    assert created == c.db.(packages := db.packages[id := pkg]);
    NewPackageRemovable(db, repo.id, pkg);
    ImportedDocsAreRemovable(repo.id, repoReleases, db.(nextId := id + 1));
  }

  /** Removing a repository's packages after adding one under a fresh id gives back the
      packages there were, when none belonged to it. */
  lemma NewPackageRemovable(db: Db, repoId: int, pkg: Package)
    requires Fresh(db) && NoPackageFor(db, repoId) && IsGithubPackageOf(pkg, repoId)
    ensures var ps := db.packages[db.nextId := pkg];
      (map k | k in ps && !IsGithubPackageOf(ps[k], repoId) :: ps[k]) == db.packages
  {
  }

  /** As written: after a package with imported releases is removed, the release docs its
      release array named are all still there, while the package doc is gone. */
  lemma ImportedReleasesOrphanedAsWritten(repo: Repo, event: Event, repoReleases: seq<ReleaseInfo>, db: Db)
    requires Fresh(db) && NoPackageFor(db, repo.id)
    ensures var created := CreatePackage(AsWritten, repo, event, repoReleases, db);
      var ids := created.packages[db.nextId].sourceData.releases;
      var removed := RemovePackage(repo, created);
      db.nextId !in removed.packages &&
      forall i :: 0 <= i < |ids| ==> ids[i] in removed.releases
  {
    CreatePackageFields(AsWritten, repo, event, repoReleases, db);
  }

  /** As written, a package created with imported releases already breaks the invariant. */
  lemma AsWrittenCreateBreaksLinks(repo: Repo, event: Event, repoReleases: seq<ReleaseInfo>, db: Db)
    requires Fresh(db) && NoPackageFor(db, repo.id) && |repoReleases| > 0
    ensures !ReleasesLinked(CreatePackage(AsWritten, repo, event, repoReleases, db))
  {
    var r := CreatePackage(AsWritten, repo, event, repoReleases, db);
    CreatePackageFields(AsWritten, repo, event, repoReleases, db);
    assert !Linked(r, db.nextId, 0);
  }

  /** A release event for a repository without a GitHub package doc changes nothing. */
  lemma ReleaseWithoutPackage(event: Event, db: Db)
    requires Fresh(db)
    requires forall k :: k in db.packages ==> !IsGithubPackageOf(db.packages[k], event.repository.id)
    ensures AddOrUpdateReleaseDoc(event, db) == db
  {
  }

  /** Under uniqueness, the package doc of a repository is the one the query returns. */
  lemma FindsThePackage(db: Db, pk: DocId, repoId: int)
    requires Fresh(db) && UniquePackages(db)
    requires pk in db.packages && IsGithubPackageOf(db.packages[pk], repoId)
    ensures FindGithubPackage(db, repoId) == Some(pk)
  {
  }

  /** A release not yet known: a draft is ignored, a "published" one gets a new release doc
      whose id is appended to the package's release array, any other action changes nothing. */
  lemma NewReleaseRule(event: Event, db: Db, pk: DocId)
    requires Fresh(db) && UniquePackages(db)
    requires pk in db.packages && IsGithubPackageOf(db.packages[pk], event.repository.id)
    requires forall k :: k in db.releases ==>
      !(db.releases[k].repository == Some(event.repository.id) && db.releases[k].release.id == event.release.id)
    ensures var r := AddOrUpdateReleaseDoc(event, db);
      var pkg := db.packages[pk];
      if !event.release.draft && event.action == "published" then
        r == db.(releases := db.releases[db.nextId := ReleaseDoc(Some(event.repository.id), event.release)],
                 packages := db.packages[pk := WithReleases(pkg, pkg.sourceData.releases + [db.nextId])],
                 nextId := db.nextId + 1)
      else r == db
  {
    FindsThePackage(db, pk, event.repository.id);
  }

  /** Deleting a known release removes the doc the query finds first and exactly its id from
      the package's release array; no other package changes. */
  lemma DeletedReleaseRule(event: Event, db: Db, pk: DocId, rk: DocId)
    requires Fresh(db) && UniquePackages(db) && event.action == "deleted"
    requires pk in db.packages && IsGithubPackageOf(db.packages[pk], event.repository.id)
    requires FindReleaseDoc(db, event.repository.id, event.release.id) == Some(rk)
    ensures var r := AddOrUpdateReleaseDoc(event, db);
      var pkg := db.packages[pk];
      r == db.(releases := db.releases - {rk},
               packages := db.packages[pk := WithReleases(pkg, Without(pkg.sourceData.releases, rk))])
  {
    FindsThePackage(db, pk, event.repository.id);
  }

  /** Any other action on a known release: a draft changes nothing; otherwise the doc takes the
      event's release fields and keeps its repository; release arrays are untouched. */
  lemma OtherActionRule(event: Event, db: Db, pk: DocId, rk: DocId)
    requires Fresh(db) && UniquePackages(db) && event.action != "deleted"
    requires pk in db.packages && IsGithubPackageOf(db.packages[pk], event.repository.id)
    requires FindReleaseDoc(db, event.repository.id, event.release.id) == Some(rk)
    ensures var r := AddOrUpdateReleaseDoc(event, db);
      if event.release.draft then r == db
      else r == db.(releases := db.releases[rk := ReleaseDoc(Some(event.repository.id), event.release)])
  {
    FindsThePackage(db, pk, event.repository.id);
  }

  /** Appending a fresh release doc of the package's repository to its array keeps
      consistency. */
  lemma AppendReleaseConsistent(db: Db, pk: DocId, doc: ReleaseDoc)
    requires Consistent(db) && pk in db.packages
    requires doc.repository == Some(db.packages[pk].sourceData.repo.id)
    ensures var pkg := db.packages[pk];
      Consistent(db.(releases := db.releases[db.nextId := doc],
                     packages := db.packages[pk := WithReleases(pkg, pkg.sourceData.releases + [db.nextId])],
                     nextId := db.nextId + 1))
  {
    var pkg := db.packages[pk];
    var r := db.(releases := db.releases[db.nextId := doc],
                 packages := db.packages[pk := WithReleases(pkg, pkg.sourceData.releases + [db.nextId])],
                 nextId := db.nextId + 1);
    forall k, i | k in r.packages && r.packages[k].source == Github &&
                  0 <= i < |r.packages[k].sourceData.releases|
      ensures Linked(r, k, i)
    {
      if k != pk || i < |pkg.sourceData.releases| {
        assert Linked(db, k, i);
      }
    }
  }

  /** Deleting a release doc of the package's repository, and its id from the package's array,
      keeps consistency: no other package can name it. */
  lemma DropReleaseConsistent(db: Db, pk: DocId, rk: DocId)
    requires Consistent(db) && pk in db.packages && rk in db.releases
    requires db.releases[rk].repository == Some(db.packages[pk].sourceData.repo.id)
    ensures var pkg := db.packages[pk];
      Consistent(db.(releases := db.releases - {rk},
                     packages := db.packages[pk := WithReleases(pkg, Without(pkg.sourceData.releases, rk))]))
  {
    var pkg := db.packages[pk];
    var r := db.(releases := db.releases - {rk},
                 packages := db.packages[pk := WithReleases(pkg, Without(pkg.sourceData.releases, rk))]);
    forall k, i | k in r.packages && r.packages[k].source == Github &&
                  0 <= i < |r.packages[k].sourceData.releases|
      ensures Linked(r, k, i)
    {
      if k == pk {
        var id := r.packages[k].sourceData.releases[i];
        assert id in Without(pkg.sourceData.releases, rk);
        var j :| 0 <= j < |pkg.sourceData.releases| && pkg.sourceData.releases[j] == id;
        assert Linked(db, pk, j);
      } else {
        assert Linked(db, k, i);
      }
    }
  }

  /** Replacing a release doc's contents while keeping its `repository` keeps consistency. */
  lemma UpdateReleaseConsistent(db: Db, rk: DocId, doc: ReleaseDoc)
    requires Consistent(db) && rk in db.releases && doc.repository == db.releases[rk].repository
    ensures Consistent(db.(releases := db.releases[rk := doc]))
  {
    var r := db.(releases := db.releases[rk := doc]);
    forall k, i | k in r.packages && r.packages[k].source == Github &&
                  0 <= i < |r.packages[k].sourceData.releases|
      ensures Linked(r, k, i)
    {
      assert Linked(db, k, i);
    }
  }

  /** Release events keep the database consistent. */
  lemma AddOrUpdateConsistent(event: Event, db: Db)
    requires Consistent(db)
    ensures Consistent(AddOrUpdateReleaseDoc(event, db))
  {
    var repoId := event.repository.id;
    match FindGithubPackage(db, repoId)
    case None =>
    case Some(pk) =>
      var pkg := db.packages[pk];
      match FindReleaseDoc(db, repoId, event.release.id)
      case None =>
        if !event.release.draft && event.action == "published" {
          AppendReleaseConsistent(db, pk, ReleaseDoc(Some(repoId), event.release));
        }
      case Some(rk) =>
        if event.action == "deleted" {
          DropReleaseConsistent(db, pk, rk);
        } else if !event.release.draft {
          UpdateReleaseConsistent(db, rk, ReleaseDoc(db.releases[rk].repository, event.release));
        }
  }

  /** Author writes keep the database consistent. */
  lemma AuthorWritesConsistent(event: Event, orgAdmins: seq<int>, db: Db)
    requires Consistent(db)
    ensures Consistent(CreateAuthor(event, orgAdmins, db))
    ensures Consistent(RemoveAuthor(event, db))
  {
    SameDocumentsConsistent(db, CreateAuthor(event, orgAdmins, db));
    SameDocumentsConsistent(db, RemoveAuthor(event, db));
  }

  /** Writes that touch neither packages nor releases, and keep ids fresh, keep consistency. */
  lemma SameDocumentsConsistent(a: Db, b: Db)
    requires Consistent(a)
    requires b.packages == a.packages && b.releases == a.releases && b.nextId >= a.nextId
    requires forall k :: k in b.authors ==> k < b.nextId
    ensures Consistent(b)
  {
    forall k, i | k in b.packages && b.packages[k].source == Github &&
                  0 <= i < |b.packages[k].sourceData.releases|
      ensures Linked(b, k, i)
    {
      assert Linked(a, k, i);
    }
  }

  /** Intended: every write a delivery can ask for keeps the database consistent. */
  lemma ApplyConsistent(u: Update, event: Event, api: GithubApi, db: Db)
    requires Consistent(db)
    ensures Consistent(Apply(Intended, u, event, api, db))
  {
    match u
    case CreateAuthorFor => AuthorWritesConsistent(event, api.orgAdmins, db);
    case CreatePackageFor(repo) => CreatePackageConsistent(repo, event, api.repoReleases(repo), db);
    case RemovePackageFor(repo) => RemovePackageConsistent(repo, db);
    case RemoveAuthorFor => AuthorWritesConsistent(event, api.orgAdmins, db);
    case AddOrUpdateRelease => AddOrUpdateConsistent(event, db);
    case StoreEvent(collection) => SameDocumentsConsistent(db, Apply(Intended, u, event, api, db));
  }

  lemma {:induction false} ApplyAllConsistent(plan: seq<Update>, event: Event, api: GithubApi,
                                              accepts: Update -> bool, db: Db)
    requires Consistent(db)
    ensures Consistent(ApplyAll(Intended, plan, event, api, accepts, db).db)
    decreases |plan|
  {
    if |plan| > 0 && !(!accepts(plan[0]) && plan[0] == CreateAuthorFor) {
      var db' := if accepts(plan[0]) then Apply(Intended, plan[0], event, api, db) else db;
      if accepts(plan[0]) {
        ApplyConsistent(plan[0], event, api, db);
      }
      ApplyAllConsistent(plan[1..], event, api, accepts, db');
    }
  }

  /** Intended: processing any delivery, whatever writes succeed, keeps the database consistent. */
  lemma ProcessKeepsConsistent(header: string, event: Event, api: GithubApi, accepts: Update -> bool,
                               dequeued: bool, queued: DocId, db: Db)
    requires Consistent(db)
    ensures Consistent(ProcessGithubEvent(Intended, header, event, api, accepts, dequeued, queued, db).db)
  {
    var applied := ApplyAll(Intended, Plan(header, event), event, api, accepts, db);
    ApplyAllConsistent(Plan(header, event), event, api, accepts, db);
    SameDocumentsConsistent(applied.db, ProcessGithubEvent(Intended, header, event, api, accepts, dequeued, queued, db).db);
  }

  /** The part of the invariant that holds whatever the mode: fresh ids and one package doc
      per repository. */
  ghost predicate Sound(db: Db)
  {
    Fresh(db) && UniquePackages(db)
  }

  /** Creating a package, as written or as intended, keeps ids fresh and packages unique. */
  lemma CreatePackageSound(mode: Mode, repo: Repo, event: Event, repoReleases: seq<ReleaseInfo>, db: Db)
    requires Sound(db)
    ensures Sound(CreatePackage(mode, repo, event, repoReleases, db))
  {
    CreatePackageFresh(mode, repo, event, repoReleases, db);
    if FindAnyPackage(db, repo.id).None? {
      CreatePackageFields(mode, repo, event, repoReleases, db);
    }
  }

  /** Every write, in either mode, keeps ids fresh and packages unique. */
  lemma ApplySound(mode: Mode, u: Update, event: Event, api: GithubApi, db: Db)
    requires Sound(db)
    ensures Sound(Apply(mode, u, event, api, db))
  {
    match u
    case CreatePackageFor(repo) => CreatePackageSound(mode, repo, event, api.repoReleases(repo), db);
    case AddOrUpdateRelease => AddOrUpdateSound(event, db);
    case _ =>
  }

  /** Release events keep every package's repository, so ids stay fresh and packages unique. */
  lemma AddOrUpdateSound(event: Event, db: Db)
    requires Sound(db)
    ensures Sound(AddOrUpdateReleaseDoc(event, db))
  {
    var repoId := event.repository.id;
    match FindGithubPackage(db, repoId)
    case None =>
    case Some(pk) =>
      var pkg := db.packages[pk];
      var ids := pkg.sourceData.releases;
      match FindReleaseDoc(db, repoId, event.release.id)
      case None =>
        if !event.release.draft && event.action == "published" {
          ReplacePackageSound(db, AddOrUpdateReleaseDoc(event, db), pk, WithReleases(pkg, ids + [db.nextId]));
        }
      case Some(rk) =>
        if event.action == "deleted" {
          ReplacePackageSound(db, AddOrUpdateReleaseDoc(event, db), pk, WithReleases(pkg, Without(ids, rk)));
        }
  }

  /** Replacing one package by one of the same repository, with ids kept fresh, keeps ids
      fresh and packages unique. */
  lemma ReplacePackageSound(a: Db, b: Db, pk: DocId, p: Package)
    requires Sound(a) && pk in a.packages && p.sourceData.repo == a.packages[pk].sourceData.repo
    requires b.packages == a.packages[pk := p] && b.authors == a.authors && b.nextId >= a.nextId
    requires forall k :: k in b.releases ==> k < b.nextId
    ensures Sound(b)
  {
  }

  lemma {:induction false} ApplyAllSound(mode: Mode, plan: seq<Update>, event: Event, api: GithubApi,
                                         accepts: Update -> bool, db: Db)
    requires Sound(db)
    ensures Sound(ApplyAll(mode, plan, event, api, accepts, db).db)
    decreases |plan|
  {
    if |plan| > 0 && !(!accepts(plan[0]) && plan[0] == CreateAuthorFor) {
      var db' := if accepts(plan[0]) then Apply(mode, plan[0], event, api, db) else db;
      if accepts(plan[0]) {
        ApplySound(mode, plan[0], event, api, db);
      }
      ApplyAllSound(mode, plan[1..], event, api, accepts, db');
    }
  }

  /** As written and as intended: processing any delivery keeps ids fresh and leaves at most
      one package doc per repository. */
  lemma ProcessKeepsSound(mode: Mode, header: string, event: Event, api: GithubApi, accepts: Update -> bool,
                          dequeued: bool, queued: DocId, db: Db)
    requires Sound(db)
    ensures Sound(ProcessGithubEvent(mode, header, event, api, accepts, dequeued, queued, db).db)
  {
    ApplyAllSound(mode, Plan(header, event), event, api, accepts, db);
  }

  /** A user account's author doc lists that account alone as admin. */
  lemma UserIsOwnAdmin(event: Event, orgAdmins: seq<int>, db: Db)
    requires event.account.accountType == "User"
    ensures CreateAuthor(event, orgAdmins, db).authors[db.nextId].admins == [event.account.id]
  {
  }
}
