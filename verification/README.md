# Package installer and release bookkeeping, modelled in Dafny

This project models two parts of a desktop package manager whose packages are GitHub releases.

1. **The install/uninstall engine** (`src/utils/install.ts`). It covers:
   - the install button's state;
   - the file-extension rule that decides archive extraction;
   - the running-process check;
   - the two interpreters of a manifest's operation lists (`copy`, `run`, `delete`);
   - the two orchestrators. Each resolves a release and downloads into a per-release working
     directory: install fetches every asset, uninstall only `manage.package`. Each then reads
     the manifest, runs its operation list, and records the result in the local install
     registry.
2. **The webhook bookkeeping** (`functions/src/fb-event-triggers/github.ts`). It covers how one
   queued GitHub delivery creates and removes package docs, release docs and author docs.

Everything is pure functions over immutable values:
- the filesystem is a map from path to bytes;
- the process snapshot is a sequence of names;
- the registry is a map from package id to release id;
- each Firestore collection is a map from document id to document.

Collaborators whose code is not part of this model are fields of a `Host` value of total functions:
- placeholder resolution (`helpers.createActualPath`);
- archive extraction (`extract-zip`);
- asset download (the store's `github/getAsset`);
- manifest parsing with schema validation (`fs.readJSONSync` and `helpers.validateSchema`);
- `helpers.ownerName`.

On the webhook side, GitHub API answers (`getRepoReleases`, `getOrganizationAdmins`) are
parameters. Whether the database accepts each write is also a parameter.

A `Mode` (`AsWritten` or `Intended`) selects, where the code and its evident intent differ,
between what the code does and what it evidently means to do. Every lemma that does not name
a mode holds for both. See "## Findings".

Files:
- `wrappers.dfy`: `Option`, `Result` and `Mode`.
- `install_types.dfy`: the installer's data, including `Host`.
- `paths.dfy`: `split`, `getExtension`, `replace`, the decimal release id and the working path.
- `button.dfy`: the button state.
- `process_guard.dfy`: the process check.
- `operations.dfy`: the interpreters.
- `orchestrator.dfy`: `installPackage` and `uninstallPackage`.
- `webhook_types.dfy`: the webhook's documents and the query helper.
- `webhook.dfy`: the webhook operations and dispatch.
- `webhook_properties.dfy`: the consistency invariant and the rules.
- `webhook_dispatch.dfy`: what each kind of delivery does to the database.

Points where the model follows the code rather than the documented design:
- Unknown operation actions are skipped silently, not rejected.
- A `delete` unlinks the resolved source path itself, not a file inside the working directory.
- The process check stops neither an install nor an uninstall (`Mode.AsWritten`).
- With a manifest version other than 1, install records the release and uninstall removes the record, though no operation runs (`Mode.AsWritten`).

## Model

| member | source | states |
|---|---|---|
| `Paths.Split` | src/utils/install.ts:145 | `split` yields at least one piece, and no piece contains the separator |
| `Paths.JoinSplit` | src/utils/install.ts:145 | splitting loses nothing: joining the pieces with the separator gives the original string |
| `Paths.SplitLastPiece` | src/utils/install.ts:145-146 | the last piece is a suffix that is either the whole string or follows a separator; a string without separator is one piece |
| `Paths.GetExtension` | src/utils/install.ts:144-147 | the extension contains no ".", is a suffix of the name, and is either the whole name or the text right after a "." |
| `Paths.ExtensionIsUnique` | src/utils/install.ts:144-147 | any dot-free suffix that is the whole name or follows a "." equals the extension, i.e. it is the text after the LAST dot |
| `Paths.ExtensionWithoutDot` | src/utils/install.ts:144-147 | a name without "." is its own extension |
| `Paths.IndexOf` | src/utils/install.ts:58 | returns the first position of the character, and None exactly when it does not occur |
| `Paths.ReplaceFirst` | src/utils/install.ts:58 | `replace("/", "-")` changes only the first "/" and keeps the length; without "/" the name is unchanged |
| `Paths.Decimal` | src/utils/install.ts:58 | the release id is printed as a non-empty string of decimal digits |
| `Paths.ParseDecimalInvertsDecimal` | src/utils/install.ts:58 | reading the printed release id back gives the id |
| `Paths.DecimalInjective` | src/utils/install.ts:58 | different ids print differently |
| `Paths.WorkingPathsDistinct` | src/utils/install.ts:58 | the encoded working path starts with `$TEMP\`, and two releases of one owner never share one |
| `Paths.OwnerNamesMayShareWorkingPath` | src/utils/install.ts:58 | mapping "/" to "-" lets two owner names, "a/b" and "a-b", share a working path |
| `Button.ButtonConfig` | src/utils/install.ts:18-29 | exactly one state holds: Disabled iff no latest release; Install iff no record; Uninstall iff the record holds the latest id; Update iff it holds another id |
| `Button.ButtonIgnoresOtherRecords` | src/utils/install.ts:19-21 | the state depends only on the package's own record |
| `ProcessGuard.FirstRunning` | src/utils/install.ts:136-139 | finds the first manifest entry, in manifest order, whose name is exactly a running name; None iff no entry runs |
| `ProcessGuard.CheckForProcessesOpen` | src/utils/install.ts:133-142 | an absent or empty list checks nothing; otherwise a conflict is reported iff some entry runs, and it names the first such entry |
| `ProcessGuard.CloseMessageNamesProcess` | src/utils/install.ts:138 | "Please close {name} first!" determines the name |
| `Operations.InstallOperations` | src/utils/install.ts:149-173 | a list with no copy or run changes nothing and logs nothing; only a copy can make the list fail |
| `Operations.UninstallOperations` | src/utils/install.ts:175-194 | an uninstall list never fails; a list with no delete or run changes nothing |
| `Operations.InstallOperationsAppend` | src/utils/install.ts:150-171 | strict order: running `a + b` runs `a`, stops on its failure, and otherwise runs `b` on the filesystem `a` left, with the effects of `a` logged first |
| `Operations.UninstallOperationsAppend` | src/utils/install.ts:176-192 | strict order for uninstall lists: `a + b` runs `a` and then `b` on what `a` left |
| `Operations.InstallStopsAtFailure` | src/utils/install.ts:150-167 | the first failing step ends the list: its error and filesystem are the list's, and no later step runs or is rolled back |
| `Operations.InstallIgnoresUnknownActions` | src/utils/install.ts:155-170 | an install list behaves exactly like its copy/run entries alone |
| `Operations.UninstallIgnoresUnknownActions` | src/utils/install.ts:180-191 | an uninstall list behaves exactly like its delete/run entries alone |
| `Operations.CopyPlainFile` | src/utils/install.ts:155-161 | copying a file whose extension is not zip/tar/gz copies `parent\file` to `destination\file` and does nothing else |
| `Operations.CopyArchive` | src/utils/install.ts:155-167 | for zip/tar/gz the copy happens first and extraction second; if extraction fails, the copy stays and the step fails |
| `Operations.DeleteMissingFile` | src/utils/install.ts:180-186 | deleting an absent file raises no error and changes nothing |
| `Operations.DeletesRemoveTargets` | src/utils/install.ts:176-186 | a delete-only list removes exactly the resolved files it names, present or not |
| `Operations.DeletesIdempotent` | src/utils/install.ts:180-186 | running a delete-only list twice succeeds both times and the second run leaves the same filesystem |
| `Orchestrator.FindAsset` | src/utils/install.ts:105 | finds the first asset with the given name; None iff there is none |
| `Orchestrator.DownloadAll` | src/utils/install.ts:31-45 | downloads never touch the registry; a failure is a download failure; success logs one download of each asset, in asset order, tagged with the release id |
| `Orchestrator.ReadManifest` | src/utils/install.ts:61-63 | a missing `manage.package` is `ManifestUnreadable` for that path; a schema rejection is `SchemaError` with the validator's reason; a manifest that parses is returned as parsed |
| `Orchestrator.InstallPackage` | src/utils/install.ts:47-94 | no release: fails with "No release found" and changes nothing; any failure leaves the registry as it was; success maps the repository id to the release id and nothing else |
| `Orchestrator.UninstallPackage` | src/utils/install.ts:96-131 | no release, or no manifest asset: fails and changes nothing; any failure leaves the registry; success removes exactly the repository's record |
| `Orchestrator.UpdateUninstallsBeforeInstalling` | src/utils/install.ts:73-84 | with a record present, the new release's uninstall list runs first and its install list second, each on the filesystem the previous one left; install succeeds iff the install list does |
| `Orchestrator.FreshInstallSkipsUninstall` | src/utils/install.ts:73-84 | without a record, only the install list runs, and the install fails exactly when that list fails |
| `Orchestrator.SchemaErrorRunsNothing` | src/utils/install.ts:60-63 | a missing or invalid manifest ends the install with that error: no process check, no operation, and files, log and registry stay as the download left them |
| `Orchestrator.UninstallSchemaErrorRunsNothing` | src/utils/install.ts:110-113 | a missing or invalid manifest ends the uninstall with that error: nothing runs and files, log and record stay as the download left them |
| `Orchestrator.InstallKeepsOtherRecords` | src/utils/install.ts:90-93 | install leaves every other package's record as it was |
| `Orchestrator.UninstallKeepsOtherRecords` | src/utils/install.ts:130 | uninstall leaves every other package's record as it was |
| `Orchestrator.ButtonAfterInstall` | src/utils/install.ts:18-29 | after a successful install the button shows Uninstall if the latest release was installed, and Update otherwise |
| `Orchestrator.ButtonAfterUninstall` | src/utils/install.ts:18-29 | after a successful uninstall the button shows Install, or Disabled when there is no release |
| `Orchestrator.InstallThenUninstallRestoresRegistry` | src/utils/install.ts:90-130 | installing a package that had no record, then uninstalling it, gives back the original registry |
| `Orchestrator.GuardIgnoredAsWritten` | src/utils/install.ts:133-142 | as written, neither install nor uninstall ever depends on the process snapshot |
| `Orchestrator.GuardAbortsWhenIntended` | src/utils/install.ts:68-70 | intended: a conflict in a version-1 manifest aborts before any operation and names the first conflicting process in "Please close {name} first!"; the registry is unchanged |
| `Orchestrator.UnsupportedVersionRecordedAsWritten` | src/utils/install.ts:65-93 | as written, a version other than 1 runs no operation, yet the release is recorded |
| `Orchestrator.UnsupportedVersionRejectedWhenIntended` | src/utils/install.ts:64-65 | intended: a version other than 1 fails as unsupported; files, log and registry stay exactly as the download left them |
| `Orchestrator.UninstallGuardAbortsWhenIntended` | src/utils/install.ts:118-120 | intended: a conflict in a version-1 manifest aborts the uninstall before any operation, naming the first conflicting process; the record stays |
| `Orchestrator.UninstallUnsupportedVersionRemovesRecordAsWritten` | src/utils/install.ts:115-130 | as written, a version other than 1 runs no uninstall step, yet the record is removed |
| `Orchestrator.UninstallUnsupportedVersionRejectedWhenIntended` | src/utils/install.ts:115-130 | intended: a version other than 1 makes uninstall fail as unsupported; files, log and record stay exactly as the download left them |
| `Orchestrator.UninstallSucceedsOnceManifestRead` | src/utils/install.ts:110-130 | once the manifest is read, uninstall cannot fail (intended mode: unless a process conflicts or the version is unsupported) |
| `WebhookTypes.First` | functions/src/fb-event-triggers/github.ts:207 | a query's first result matches, and no smaller id matches; it is None iff nothing matches |
| `Webhook.CreateReleaseDocs` | functions/src/fb-event-triggers/github.ts:240-250 | creates one new doc per release, in input order, under fresh consecutive ids, and returns those ids; earlier docs and the other collections are untouched |
| `Webhook.CreatePackage` | functions/src/fb-event-triggers/github.ts:118-160 | with a package for the repository already present, nothing changes; otherwise exactly one package id is added; authors and repositories are untouched |
| `Webhook.RemovePackage` | functions/src/fb-event-triggers/github.ts:162-188 | removes exactly the GitHub package docs for the repository, the release docs whose `repository` is it, and its `repositories` doc; nothing else changes |
| `Webhook.Without` | functions/src/fb-event-triggers/github.ts:226 | the filtered array lacks the id and keeps every other id |
| `Webhook.WithoutAppend` | functions/src/fb-event-triggers/github.ts:226 | filtering keeps the remaining ids in their relative order |
| `Webhook.AddOrUpdateReleaseDoc` | functions/src/fb-event-triggers/github.ts:190-238 | without a GitHub package doc for the repository nothing changes; authors, `repositories` docs and stored events never change; every package but the repository's first GitHub package stays as it was, and that one changes only in its release array |
| `Webhook.CreateAuthor` | functions/src/fb-event-triggers/github.ts:72-101 | a new author doc for the account with those admins, under a fresh id; existing authors, packages, releases, `repositories` docs, stored events and the queue are unchanged |
| `Webhook.RemoveAuthor` | functions/src/fb-event-triggers/github.ts:103-116 | only the author collection changes; the one doc removed is the account's author doc with the least id, every other author stays, and without an author for the account nothing changes |
| `Webhook.ApplyAll` | functions/src/fb-event-triggers/github.ts:60-61 | the writes succeed together iff every write is accepted |
| `Webhook.ProcessGithubEvent` | functions/src/fb-event-triggers/github.ts:60-68 | the delivery is handled iff every write and the deletion of the queued doc succeed; the queued doc is gone exactly then |
| `WebhookProperties.CreatePackageFields` | functions/src/fb-event-triggers/github.ts:136-157 | a new package is Inactive, Private iff the repo is private, GitHub-sourced, LatestAndPrerelease, no dependencies; its releases array names one new release doc per input release, in order; old packages are kept |
| `WebhookProperties.CreatePackageFresh` | functions/src/fb-event-triggers/github.ts:127-129 | package creation only uses fresh document ids |
| `WebhookProperties.CreatePackageTwice` | functions/src/fb-event-triggers/github.ts:118-125 | duplicate suppression: creating the same repository's package again changes nothing |
| `WebhookProperties.CreatePackageConsistent` | functions/src/fb-event-triggers/github.ts:118-160 | intended: package creation keeps ids fresh, one package per repository, and every release id linked to a doc of that repository |
| `WebhookProperties.RemovePackageConsistent` | functions/src/fb-event-triggers/github.ts:162-188 | cascade removal keeps the database consistent |
| `WebhookProperties.ImportedDocsAreRemovable` | functions/src/fb-event-triggers/github.ts:172-178 | intended: the release docs created for a repository are exactly the docs its removal query matches |
| `WebhookProperties.RemoveUndoesCreateWhenIntended` | functions/src/fb-event-triggers/github.ts:162-188 | intended: removing a just-created package restores the packages and releases collections |
| `WebhookProperties.ImportedReleasesOrphanedAsWritten` | functions/src/fb-event-triggers/github.ts:240-250 | as written, after removing a package, every release doc it imported is still there |
| `WebhookProperties.AsWrittenCreateBreaksLinks` | functions/src/fb-event-triggers/github.ts:240-250 | as written, creating a package with imported releases breaks the release linkage |
| `WebhookProperties.ReleaseWithoutPackage` | functions/src/fb-event-triggers/github.ts:199-206 | a release event for a repository without a GitHub package doc changes nothing |
| `WebhookProperties.FindsThePackage` | functions/src/fb-event-triggers/github.ts:199-207 | with one package per repository, the query finds that package |
| `WebhookProperties.NewReleaseRule` | functions/src/fb-event-triggers/github.ts:210-220 | in either mode, with ids fresh and one package per repository: an unknown non-draft release on "published" gets a new doc, tagged with the repository, whose id is appended to the package's array; a draft or another action changes nothing |
| `WebhookProperties.DeletedReleaseRule` | functions/src/fb-event-triggers/github.ts:221-227 | in either mode, with ids fresh and one package per repository: "deleted" removes the release doc the query finds first and exactly its id from the package's array; no other package changes |
| `WebhookProperties.OtherActionRule` | functions/src/fb-event-triggers/github.ts:228-234 | in either mode, with ids fresh and one package per repository: another action on the release doc the query finds first: a draft changes nothing, otherwise the doc takes the event's release fields and keeps its repository; arrays are untouched |
| `WebhookProperties.AddOrUpdateConsistent` | functions/src/fb-event-triggers/github.ts:190-238 | release events keep the database consistent |
| `WebhookProperties.AuthorWritesConsistent` | functions/src/fb-event-triggers/github.ts:72-116 | author creation and removal keep the database consistent |
| `WebhookProperties.ApplyConsistent` | functions/src/fb-event-triggers/github.ts:18-58 | intended: every write a delivery can request keeps the database consistent |
| `WebhookProperties.ApplyAllConsistent` | functions/src/fb-event-triggers/github.ts:60-61 | intended: any sequence of writes, with any of them rejected, keeps consistency |
| `WebhookProperties.ProcessKeepsConsistent` | functions/src/fb-event-triggers/github.ts:10-69 | intended: processing any delivery keeps the database consistent |
| `WebhookProperties.CreatePackageSound` | functions/src/fb-event-triggers/github.ts:118-160 | as written and as intended, package creation keeps ids fresh and at most one package per repository |
| `WebhookProperties.AddOrUpdateSound` | functions/src/fb-event-triggers/github.ts:190-238 | release events never change a package's repository, so ids stay fresh and packages unique |
| `WebhookProperties.ApplySound` | functions/src/fb-event-triggers/github.ts:18-58 | as written and as intended, every write a delivery can request keeps ids fresh and packages unique |
| `WebhookProperties.ApplyAllSound` | functions/src/fb-event-triggers/github.ts:60-61 | as written and as intended, any sequence of writes, with any of them rejected, keeps ids fresh and packages unique |
| `WebhookProperties.ProcessKeepsSound` | functions/src/fb-event-triggers/github.ts:10-69 | as written and as intended, processing any delivery keeps ids fresh and packages unique |
| `WebhookProperties.UserIsOwnAdmin` | functions/src/fb-event-triggers/github.ts:77-78 | a "User" account's author doc lists exactly that account as admin |
| `WebhookDispatch.FindAnyPackageFinds` | functions/src/fb-event-triggers/github.ts:121-125 | with fresh ids, the duplicate query finds a package exactly when one exists for the repository |
| `WebhookDispatch.CreatePackageProvides` | functions/src/fb-event-triggers/github.ts:118-160 | after creation the repository has a package doc, and every repository that had one still has one |
| `WebhookDispatch.CreateEachProvides` | functions/src/fb-event-triggers/github.ts:24-26 | accepted creations for a list of repositories leave a package doc for each of them, keep the others and touch no author |
| `WebhookDispatch.RemoveEachRemoves` | functions/src/fb-event-triggers/github.ts:29-31 | accepted removals for a list of repositories leave no GitHub package and no `repositories` doc for any of them; remaining packages are unchanged |
| `WebhookDispatch.ApplyAllAppend` | functions/src/fb-event-triggers/github.ts:60-61 | accepted writes compose: a plan applies its accepted prefix and then the rest on what it left |
| `WebhookDispatch.InstallationCreatedProvides` | functions/src/fb-event-triggers/github.ts:19-26 | installation/created with every write accepted: the author query finds the account, and the package query finds every installed repository |
| `WebhookDispatch.RepositoriesAddedProvides` | functions/src/fb-event-triggers/github.ts:36-41 | installation_repositories/added with every write accepted: the package query finds every added repository; authors are untouched |
| `WebhookDispatch.InstallationDeletedRemoves` | functions/src/fb-event-triggers/github.ts:27-33 | installation/deleted with every write accepted: no GitHub package or `repositories` doc remains for the installation's repositories, and the account's first author doc is gone |
| `WebhookDispatch.RepositoriesRemovedRemoves` | functions/src/fb-event-triggers/github.ts:42-46 | installation_repositories/removed with every write accepted: no GitHub package or `repositories` doc remains for any removed repository; authors are untouched |
| `WebhookDispatch.IgnoredActionChangesNothing` | functions/src/fb-event-triggers/github.ts:19-48 | an installation or installation_repositories delivery with another action changes no document and is handled iff its queued doc is deleted |
| `WebhookDispatch.OtherHeaderStored` | functions/src/fb-event-triggers/github.ts:55-57 | any other header, accepted, appends the event under the header's name and changes no package, release or author |
| `WebhookDispatch.ReleaseTouchesOnlyReleases` | functions/src/fb-event-triggers/github.ts:49-54 | a release delivery changes no author, `repositories` doc or stored event, and no package but the repository's first GitHub package |

## Left out

- `src/store/auth.ts` and `src/plugins/vuetify.ts` are not part of this model. They hold authentication I/O and UI wiring.
- Real I/O is abstract: the transfer inside the asset download, JSON parsing and schema rules, archive contents, and what `createActualPath` expands a token to. Each is a `Host` function whose code is not visible.
- `Orchestrator.DownloadAll`: a failing download is modelled as an error that stops the call. Whether the store action really rejects on failure is not visible.
- `Operations.InstallStep`: a `run` always succeeds. `shell.openExternal` can reject, but that would be an error from the host shell, which is not modelled.
- Only a missing source can make a copy fail. Directories, permissions and a missing destination directory are not modelled, because the filesystem is a flat map.
- Extraction targets `destination\file`, the path the archive was just copied to. Whether `extract-zip` accepts such a directory is not visible, so `extract` receives both paths unchanged.
- The rethrow `new Error(err)` changes only the error text. The model keeps the error's kind.
- `version == 1` is a loose comparison, so a string "1" would also pass. The model's version is an integer.
- The registry is a map. The source keeps a list searched with `find` and updated by store actions that are not visible. The button returns the action, not its UI configuration object.
- `Orchestrator.InstallPackage`: the registry writes `config/addOrUpdatePackage` (install.ts:90-93) and `config/removePackage` (install.ts:130) are modelled as never failing, because the store actions' code is not part of this model. A real rejection after the operations ran would leave the files updated and the registry stale; `Orchestrator.UninstallPackage` has the same gap.
- `Orchestrator.UninstallSucceedsOnceManifestRead`: this holds only because of three modelling choices. `run` never fails, though `shell.openExternal` can reject. `Host.resolve` is total, though `createActualPath` is awaited for every operation (install.ts:178) and could reject. The registry update `config/removePackage` (install.ts:130) never fails, because the store action's code is not part of this model.
- Concurrency is not modelled. This covers `Promise.all` fan-out and the one-second delay before release events. Writes are applied in plan order, and a rejected write has no effect; real rejected writes may be partial.
- The `description`, `tags`, `images`, `website` and thumbnail fields of new package and author docs are not modelled. They are constant or copied and nothing reads them here.
- A Firestore update merges fields. The model replaces the release fields of a release doc, but keeps its `repository` field.
- Document ids come from a counter, and a query's `docs[0]` is the matching doc with the least id. Firestore's real id generation and ordering are not modelled.
- Firestore rejects the collection path "" that a missing event header produces. The model stores the event under "".
- The `repositories` collection is keyed by `repo.id.toString()`. The model keys it by the id itself.

## Findings

| source | as written | input that shows it | evidently intended | confidence | as-written member | corrected member |
|---|---|---|---|---|---|---|
| src/utils/install.ts:135-141 | the `psList()` promise is neither awaited nor returned, so the error thrown at line 138 never reaches `installPackage` | manifest `{version: 1, processes: [{name: "Foo.exe"}], ...}` while "Foo.exe" runs: install runs its operations and records the release | a conflict aborts before any operation, with "Please close Foo.exe first!" | high; not executed | `Orchestrator.GuardIgnoredAsWritten` | `Orchestrator.GuardAbortsWhenIntended` |
| src/utils/install.ts:65-93 | a manifest version other than 1 skips every operation, but the registry update still runs | manifest `{version: 2, ...}`: nothing is installed, yet the button shows Uninstall | an unsupported version is an error and nothing is recorded | medium; not executed | `Orchestrator.UnsupportedVersionRecordedAsWritten` | `Orchestrator.UnsupportedVersionRejectedWhenIntended` |
| src/utils/install.ts:118-120 | uninstall awaits the same `checkForProcessesOpen`, whose promise is not returned, so a running process does not stop it either | uninstall of a release whose version-1 manifest lists "Foo.exe" while "Foo.exe" runs: the uninstall list runs and the record is removed | a conflict aborts the uninstall before any operation and keeps the record | high; not executed | `Orchestrator.GuardIgnoredAsWritten` | `Orchestrator.UninstallGuardAbortsWhenIntended` |
| src/utils/install.ts:115-130 | a manifest version other than 1 skips the uninstall list, but `config/removePackage` at line 130 still runs | uninstall with manifest `{version: 2, ...}`: no file is removed, yet the button shows Install | an unsupported version is an error and the record stays | medium; not executed | `Orchestrator.UninstallUnsupportedVersionRemovesRecordAsWritten` | `Orchestrator.UninstallUnsupportedVersionRejectedWhenIntended` |
| functions/src/fb-event-triggers/github.ts:240-250 | release docs created with a new package lack the `repository` field, and the cascade removal at lines 174-178 queries on that field | install the app on a repository with one release, then remove the repository: the package doc is deleted but its release doc remains | imported release docs carry the repository id, so removal deletes them | high; not executed | `WebhookProperties.ImportedReleasesOrphanedAsWritten` | `WebhookProperties.RemoveUndoesCreateWhenIntended` |
