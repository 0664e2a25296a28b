/** The two orchestrators (installPackage, uninstallPackage): resolve the release, download its
    assets, derive the working directory, read the manifest, and for manifest version 1 guard
    against running processes and run the operation lists; the registry is updated last.

    `Mode` selects between the code as written (the process check's promise is neither awaited
    nor returned, so a conflict never stops the call; a manifest version other than 1 runs
    nothing but is still recorded) and the intended behaviour (a conflict aborts; an
    unsupported version is an error). */
module Orchestrator {
  import opened Wrappers
  import opened InstallTypes
  import Paths
  import ProcessGuard
  import opened Operations
  import opened Button

  const PackageFile: string := "manage.package"

  datatype Failure =
    | NoReleaseFound
    | ManifestAssetMissing
    | DownloadFailed(assetId: nat, reason: string)
    | ManifestUnreadable(path: Path)
    | SchemaError(reason: string)
    | UnsupportedVersion(version: int)
    | ProcessOpen(name: string)
    | OperationFailed(cause: OpFailure)

  /** Everything an install or uninstall call can change. */
  datatype Machine = Machine(fs: FileSystem, registry: Registry, log: seq<Effect>)

  datatype Outcome = Outcome(state: Machine, failure: Option<Failure>)

  /** The text the caller shows for the errors whose wording the installer fixes. */
  function Message(f: Failure): Option<string>
  {
    match f
    case NoReleaseFound => Some("No release found for this repository")
    case ProcessOpen(name) => Some(ProcessGuard.CloseMessage(name))
    case _ => None
  }

  /** The release to act on: the one supplied, else the latest known one. */
  function ResolveRelease(release: Option<Release>, latest: Option<Release>): (r: Option<Release>)
    ensures release.Some? ==> r == release
    ensures release.None? ==> r == latest
  {
    if release.Some? then release else latest
  }

  /** `_.find(assets, a => a.name == name)`: the first asset with that name. */
  function FindAsset(assets: seq<Asset>, name: string): (r: Option<Asset>)
    ensures r.None? <==> forall i :: 0 <= i < |assets| ==> assets[i].name != name
    ensures r.Some? ==> exists i :: 0 <= i < |assets| && assets[i] == r.value && r.value.name == name &&
                                    forall j :: 0 <= j < i ==> assets[j].name != name
    decreases |assets|
  {
    if |assets| == 0 then None
    else if assets[0].name == name then Some(assets[0])
    else
      var r := FindAsset(assets[1..], name);
      if r.Some? then
        ghost var i :| 0 <= i < |assets[1..]| && assets[1..][i] == r.value && r.value.name == name &&
                       forall j :: 0 <= j < i ==> assets[1..][j].name != name;
        assert assets[i + 1] == r.value;
        assert forall j :: 1 <= j < i + 1 ==> assets[j] == assets[1..][j - 1];
        r
      else r
  }

  /** downloadHandler: fetches the assets one after another; the first failure stops it. */
  function DownloadAll(host: Host, repo: Repository, rel: Release, assets: seq<Asset>, m: Machine): (o: Outcome)
    ensures o.state.registry == m.registry
    ensures o.failure.Some? ==> o.failure.value.DownloadFailed?
    ensures o.failure.None? ==>
      o.state.log == m.log + seq(|assets|, i requires 0 <= i < |assets| => Downloaded(assets[i].id, rel.id))
    decreases |assets|
  {
    if |assets| == 0 then Outcome(m, None)
    else match host.download(m.fs, repo, rel, assets[0])
      case Err(reason) => Outcome(m, Some(DownloadFailed(assets[0].id, reason)))
      case Ok(fs') =>
        var first := Downloaded(assets[0].id, rel.id);
        var rest := DownloadAll(host, repo, rel, assets[1..], Machine(fs', m.registry, m.log + [first]));
        assert seq(|assets|, i requires 0 <= i < |assets| => Downloaded(assets[i].id, rel.id))
            == [first] + seq(|assets[1..]|, i requires 0 <= i < |assets[1..]| => Downloaded(assets[1..][i].id, rel.id));
        rest
  }

  /** The working directory of a release: the encoded path, with its placeholder resolved. */
  function WorkingDir(host: Host, repo: Repository, rel: Release): Path
  {
    host.resolve(Paths.EncodedWorkingPath(host.ownerName(repo), rel.id))
  }

  /** Reads and validates `manage.package` from the working directory. */
  function ReadManifest(host: Host, fs: FileSystem, dir: Path): (r: Result<Manifest, Failure>)
    ensures r.Err? ==> r.error.ManifestUnreadable? || r.error.SchemaError?
    ensures Under(dir, PackageFile) !in fs ==> r == Err(ManifestUnreadable(Under(dir, PackageFile)))
    ensures var path := Under(dir, PackageFile);
      path in fs && host.parseManifest(fs[path]).Ok? ==> r == Ok(host.parseManifest(fs[path]).value)
    ensures var path := Under(dir, PackageFile);
      path in fs && host.parseManifest(fs[path]).Err? ==> r == Err(SchemaError(host.parseManifest(fs[path]).error))
  {
    var path := Under(dir, PackageFile);
    if path !in fs then Err(ManifestUnreadable(path))
    else match host.parseManifest(fs[path])
      case Ok(manifest) => Ok(manifest)
      case Err(reason) => Err(SchemaError(reason))
  }

  /** installPackage. */
  function InstallPackage(mode: Mode, host: Host, repo: Repository, release: Option<Release>,
                          latest: Option<Release>, running: seq<string>, m: Machine): (o: Outcome)
    ensures ResolveRelease(release, latest).None? ==> o == Outcome(m, Some(NoReleaseFound))
    ensures o.failure.Some? ==> o.state.registry == m.registry
    ensures o.failure.None? ==> ResolveRelease(release, latest).Some?
    ensures o.failure.None? ==> o.state.registry == m.registry[repo.id := ResolveRelease(release, latest).value.id]
  {
    match ResolveRelease(release, latest)
    case None => Outcome(m, Some(NoReleaseFound))
    case Some(rel) =>
      var downloaded := DownloadAll(host, repo, rel, rel.assets, m);
      if downloaded.failure.Some? then downloaded
      else
        var s := downloaded.state;
        var dir := WorkingDir(host, repo, rel);
        match ReadManifest(host, s.fs, dir)
        case Err(f) => Outcome(s, Some(f))
        case Ok(manifest) =>
          if manifest.version == 1 then
            var conflict := ProcessGuard.CheckForProcessesOpen(manifest.processes, running);
            if mode == Intended && conflict.Some? then Outcome(s, Some(ProcessOpen(conflict.value)))
            else
              // an update first runs the new release's own uninstall list; it cannot fail
              var removed := if repo.id in s.registry then UninstallOperations(host, dir, manifest.uninstall, s.fs)
                             else Exec(s.fs, [], None);
              var installed := InstallOperations(host, dir, manifest.install, removed.fs);
              var after := Machine(installed.fs, s.registry, s.log + removed.log + installed.log);
              if installed.failure.Some? then Outcome(after, Some(OperationFailed(installed.failure.value)))
              else Outcome(after.(registry := s.registry[repo.id := rel.id]), None)
          else if mode == Intended then Outcome(s, Some(UnsupportedVersion(manifest.version)))
          else Outcome(s.(registry := s.registry[repo.id := rel.id]), None)
  }

  /** uninstallPackage: downloads only the manifest asset and runs only the uninstall list. */
  function UninstallPackage(mode: Mode, host: Host, repo: Repository, release: Option<Release>,
                            latest: Option<Release>, running: seq<string>, m: Machine): (o: Outcome)
    ensures ResolveRelease(release, latest).None? ==> o == Outcome(m, Some(NoReleaseFound))
    ensures ResolveRelease(release, latest).Some? &&
            FindAsset(ResolveRelease(release, latest).value.assets, PackageFile).None? ==>
              o == Outcome(m, Some(ManifestAssetMissing))
    ensures o.failure.Some? ==> o.state.registry == m.registry
    ensures o.failure.None? ==> o.state.registry == m.registry - {repo.id}
  {
    match ResolveRelease(release, latest)
    case None => Outcome(m, Some(NoReleaseFound))
    case Some(rel) =>
      match FindAsset(rel.assets, PackageFile)
      case None => Outcome(m, Some(ManifestAssetMissing))
      case Some(asset) =>
        var downloaded := DownloadAll(host, repo, rel, [asset], m);
        if downloaded.failure.Some? then downloaded
        else
          var s := downloaded.state;
          var dir := WorkingDir(host, repo, rel);
          match ReadManifest(host, s.fs, dir)
          case Err(f) => Outcome(s, Some(f))
          case Ok(manifest) =>
            if manifest.version == 1 then
              var conflict := ProcessGuard.CheckForProcessesOpen(manifest.processes, running);
              if mode == Intended && conflict.Some? then Outcome(s, Some(ProcessOpen(conflict.value)))
              else
                var removed := UninstallOperations(host, dir, manifest.uninstall, s.fs);
                Outcome(Machine(removed.fs, s.registry - {repo.id}, s.log + removed.log), None)
            else if mode == Intended then Outcome(s, Some(UnsupportedVersion(manifest.version)))
            else Outcome(s.(registry := s.registry - {repo.id}), None)
  }

  /** The state after the downloads and the manifest read both succeeded with `manifest`. */
  predicate Prepared(host: Host, repo: Repository, rel: Release, assets: seq<Asset>, m: Machine, manifest: Manifest)
  {
    var downloaded := DownloadAll(host, repo, rel, assets, m);
    downloaded.failure.None? &&
    ReadManifest(host, downloaded.state.fs, WorkingDir(host, repo, rel)) == Ok(manifest)
  }

  /** An update (a record already exists) of version 1 runs the new release's uninstall list
      first and its install list second, each on the filesystem the previous one left. */
  lemma UpdateUninstallsBeforeInstalling(mode: Mode, host: Host, repo: Repository, rel: Release,
                                         latest: Option<Release>, running: seq<string>, m: Machine, manifest: Manifest)
    requires Prepared(host, repo, rel, rel.assets, m, manifest)
    requires manifest.version == 1 && repo.id in m.registry
    requires mode == AsWritten || ProcessGuard.CheckForProcessesOpen(manifest.processes, running).None?
    ensures var s := DownloadAll(host, repo, rel, rel.assets, m).state;
      var dir := WorkingDir(host, repo, rel);
      var removed := UninstallOperations(host, dir, manifest.uninstall, s.fs);
      var installed := InstallOperations(host, dir, manifest.install, removed.fs);
      var o := InstallPackage(mode, host, repo, Some(rel), latest, running, m);
      o.state.fs == installed.fs && o.state.log == s.log + removed.log + installed.log &&
      (o.failure.None? <==> installed.failure.None?)
  {
  }

  /** A first install (no record) of version 1 runs no uninstall step. */
  lemma FreshInstallSkipsUninstall(mode: Mode, host: Host, repo: Repository, rel: Release,
                                   latest: Option<Release>, running: seq<string>, m: Machine, manifest: Manifest)
    requires Prepared(host, repo, rel, rel.assets, m, manifest)
    requires manifest.version == 1 && repo.id !in m.registry
    requires mode == AsWritten || ProcessGuard.CheckForProcessesOpen(manifest.processes, running).None?
    ensures var s := DownloadAll(host, repo, rel, rel.assets, m).state;
      var installed := InstallOperations(host, WorkingDir(host, repo, rel), manifest.install, s.fs);
      var o := InstallPackage(mode, host, repo, Some(rel), latest, running, m);
      o.state.fs == installed.fs && o.state.log == s.log + installed.log &&
      (o.failure.None? <==> installed.failure.None?)
  {
    var s := DownloadAll(host, repo, rel, rel.assets, m).state;
    assert s.log + [] == s.log;
  }

  /** A manifest that is missing or fails validation ends the install with that error before
      the process check or any operation; the download's state is left as it was. */
  lemma SchemaErrorRunsNothing(mode: Mode, host: Host, repo: Repository, rel: Release,
                               latest: Option<Release>, running: seq<string>, m: Machine)
    requires DownloadAll(host, repo, rel, rel.assets, m).failure.None?
    requires ReadManifest(host, DownloadAll(host, repo, rel, rel.assets, m).state.fs, WorkingDir(host, repo, rel)).Err?
    ensures var s := DownloadAll(host, repo, rel, rel.assets, m).state;
      InstallPackage(mode, host, repo, Some(rel), latest, running, m)
        == Outcome(s, Some(ReadManifest(host, s.fs, WorkingDir(host, repo, rel)).error))
  {
  }

  /** The same for uninstall: an unreadable or invalid manifest runs nothing and keeps the record. */
  lemma UninstallSchemaErrorRunsNothing(mode: Mode, host: Host, repo: Repository, rel: Release, asset: Asset,
                                        latest: Option<Release>, running: seq<string>, m: Machine)
    requires FindAsset(rel.assets, PackageFile) == Some(asset)
    requires DownloadAll(host, repo, rel, [asset], m).failure.None?
    requires ReadManifest(host, DownloadAll(host, repo, rel, [asset], m).state.fs, WorkingDir(host, repo, rel)).Err?
    ensures var s := DownloadAll(host, repo, rel, [asset], m).state;
      UninstallPackage(mode, host, repo, Some(rel), latest, running, m)
        == Outcome(s, Some(ReadManifest(host, s.fs, WorkingDir(host, repo, rel)).error))
  {
  }

  /** Install changes no record but the package's own. */
  lemma InstallKeepsOtherRecords(mode: Mode, host: Host, repo: Repository, release: Option<Release>,
                                 latest: Option<Release>, running: seq<string>, m: Machine, other: nat)
    requires other != repo.id
    ensures var o := InstallPackage(mode, host, repo, release, latest, running, m);
      (other in o.state.registry <==> other in m.registry) &&
      (other in m.registry ==> o.state.registry[other] == m.registry[other])
  {
  }

  /** Uninstall changes no record but the package's own. */
  lemma UninstallKeepsOtherRecords(mode: Mode, host: Host, repo: Repository, release: Option<Release>,
                                   latest: Option<Release>, running: seq<string>, m: Machine, other: nat)
    requires other != repo.id
    ensures var o := UninstallPackage(mode, host, repo, release, latest, running, m);
      (other in o.state.registry <==> other in m.registry) &&
      (other in m.registry ==> o.state.registry[other] == m.registry[other])
  {
  }

  /** After a successful install of the latest release the button offers Uninstall; after a
      successful install of an older release it offers Update. */
  lemma ButtonAfterInstall(mode: Mode, host: Host, repo: Repository, rel: Release, latest: Release,
                           running: seq<string>, m: Machine)
    requires InstallPackage(mode, host, repo, Some(rel), Some(latest), running, m).failure.None?
    ensures var o := InstallPackage(mode, host, repo, Some(rel), Some(latest), running, m);
      ButtonConfig(o.state.registry, repo.id, Some(latest)) == (if rel.id == latest.id then Uninstall else Update)
  {
  }

  /** After a successful uninstall the button offers Install (Disabled without any release). */
  lemma ButtonAfterUninstall(mode: Mode, host: Host, repo: Repository, release: Option<Release>,
                             latest: Option<Release>, running: seq<string>, m: Machine)
    requires UninstallPackage(mode, host, repo, release, latest, running, m).failure.None?
    ensures var o := UninstallPackage(mode, host, repo, release, latest, running, m);
      ButtonConfig(o.state.registry, repo.id, latest) == (if latest.None? then Disabled else Install)
  {
  }

  /** Installing a package that had no record and then uninstalling it leaves the registry as
      it was. */
  lemma InstallThenUninstallRestoresRegistry(mode: Mode, host: Host, repo: Repository, rel: Release,
                                             latest: Option<Release>, running: seq<string>, m: Machine)
    requires repo.id !in m.registry
    requires InstallPackage(mode, host, repo, Some(rel), latest, running, m).failure.None?
    requires UninstallPackage(mode, host, repo, Some(rel), latest, running,
                              InstallPackage(mode, host, repo, Some(rel), latest, running, m).state).failure.None?
    ensures var installed := InstallPackage(mode, host, repo, Some(rel), latest, running, m);
      UninstallPackage(mode, host, repo, Some(rel), latest, running, installed.state).state.registry == m.registry
  {
    var installed := InstallPackage(mode, host, repo, Some(rel), latest, running, m);
    assert installed.state.registry - {repo.id} == m.registry;
  }

  /** As written, the process snapshot never matters: install behaves the same whatever is
      running, so a conflicting process does not stop it. */
  lemma GuardIgnoredAsWritten(host: Host, repo: Repository, release: Option<Release>, latest: Option<Release>,
                              running1: seq<string>, running2: seq<string>, m: Machine)
    ensures InstallPackage(AsWritten, host, repo, release, latest, running1, m)
         == InstallPackage(AsWritten, host, repo, release, latest, running2, m)
    ensures UninstallPackage(AsWritten, host, repo, release, latest, running1, m)
         == UninstallPackage(AsWritten, host, repo, release, latest, running2, m)
  {
  }

  /** Intended: a running process named in a version 1 manifest aborts the install before any
      operation, naming the first such entry; the registry and the files are left as the
      downloads left them. */
  lemma GuardAbortsWhenIntended(host: Host, repo: Repository, rel: Release, latest: Option<Release>,
                                running: seq<string>, m: Machine, manifest: Manifest)
    requires Prepared(host, repo, rel, rel.assets, m, manifest)
    requires manifest.version == 1
    requires ProcessGuard.CheckForProcessesOpen(manifest.processes, running).Some?
    ensures var s := DownloadAll(host, repo, rel, rel.assets, m).state;
      var name := ProcessGuard.CheckForProcessesOpen(manifest.processes, running).value;
      var o := InstallPackage(Intended, host, repo, Some(rel), latest, running, m);
      o == Outcome(s, Some(ProcessOpen(name))) && o.state.registry == m.registry &&
      Message(o.failure.value) == Some("Please close " + name + " first!")
  {
  }

  /** As written, a manifest whose version is not 1 runs no operation, yet the release is
      recorded as installed. */
  lemma UnsupportedVersionRecordedAsWritten(host: Host, repo: Repository, rel: Release, latest: Option<Release>,
                                            running: seq<string>, m: Machine, manifest: Manifest)
    requires Prepared(host, repo, rel, rel.assets, m, manifest)
    requires manifest.version != 1
    ensures var s := DownloadAll(host, repo, rel, rel.assets, m).state;
      var o := InstallPackage(AsWritten, host, repo, Some(rel), latest, running, m);
      o.failure.None? && o.state.fs == s.fs && o.state.log == s.log &&
      o.state.registry == m.registry[repo.id := rel.id]
  {
  }

  /** Intended: a manifest whose version is not 1 is an error; no operation runs, so the files,
      the log and the record stay as the download left them. */
  lemma UnsupportedVersionRejectedWhenIntended(host: Host, repo: Repository, rel: Release, latest: Option<Release>,
                                               running: seq<string>, m: Machine, manifest: Manifest)
    requires Prepared(host, repo, rel, rel.assets, m, manifest)
    requires manifest.version != 1
    ensures var s := DownloadAll(host, repo, rel, rel.assets, m).state;
      var o := InstallPackage(Intended, host, repo, Some(rel), latest, running, m);
      o == Outcome(s, Some(UnsupportedVersion(manifest.version))) && o.state.registry == m.registry
  {
  }

  /** Intended: a running process named in a version 1 manifest aborts the uninstall before
      any operation, naming the first such entry; the record stays. */
  lemma UninstallGuardAbortsWhenIntended(host: Host, repo: Repository, rel: Release, asset: Asset,
                                         latest: Option<Release>, running: seq<string>, m: Machine, manifest: Manifest)
    requires FindAsset(rel.assets, PackageFile) == Some(asset)
    requires Prepared(host, repo, rel, [asset], m, manifest)
    requires manifest.version == 1
    requires ProcessGuard.CheckForProcessesOpen(manifest.processes, running).Some?
    ensures var s := DownloadAll(host, repo, rel, [asset], m).state;
      var name := ProcessGuard.CheckForProcessesOpen(manifest.processes, running).value;
      var o := UninstallPackage(Intended, host, repo, Some(rel), latest, running, m);
      o == Outcome(s, Some(ProcessOpen(name))) && o.state.registry == m.registry &&
      Message(o.failure.value) == Some("Please close " + name + " first!")
  {
  }

  /** As written, a manifest whose version is not 1 runs no uninstall step, yet the record is
      removed. */
  lemma UninstallUnsupportedVersionRemovesRecordAsWritten(host: Host, repo: Repository, rel: Release, asset: Asset,
                                                          latest: Option<Release>, running: seq<string>,
                                                          m: Machine, manifest: Manifest)
    requires FindAsset(rel.assets, PackageFile) == Some(asset)
    requires Prepared(host, repo, rel, [asset], m, manifest)
    requires manifest.version != 1
    ensures var s := DownloadAll(host, repo, rel, [asset], m).state;
      var o := UninstallPackage(AsWritten, host, repo, Some(rel), latest, running, m);
      o.failure.None? && o.state.fs == s.fs && o.state.log == s.log &&
      o.state.registry == m.registry - {repo.id}
  {
  }

  /** Intended: a manifest whose version is not 1 makes uninstall fail; no operation runs, so the
      files, the log and the record stay as the download left them. */
  lemma UninstallUnsupportedVersionRejectedWhenIntended(host: Host, repo: Repository, rel: Release, asset: Asset,
                                                        latest: Option<Release>, running: seq<string>,
                                                        m: Machine, manifest: Manifest)
    requires FindAsset(rel.assets, PackageFile) == Some(asset)
    requires Prepared(host, repo, rel, [asset], m, manifest)
    requires manifest.version != 1
    ensures var s := DownloadAll(host, repo, rel, [asset], m).state;
      var o := UninstallPackage(Intended, host, repo, Some(rel), latest, running, m);
      o == Outcome(s, Some(UnsupportedVersion(manifest.version))) && o.state.registry == m.registry
  {
  }

  /** Uninstall always succeeds once the manifest has been read (intended mode: unless a
      process conflicts), since its operations cannot fail. */
  lemma UninstallSucceedsOnceManifestRead(mode: Mode, host: Host, repo: Repository, rel: Release, asset: Asset,
                                          latest: Option<Release>, running: seq<string>, m: Machine, manifest: Manifest)
    requires FindAsset(rel.assets, PackageFile) == Some(asset)
    requires Prepared(host, repo, rel, [asset], m, manifest)
    requires mode == AsWritten || (manifest.version == 1 && ProcessGuard.CheckForProcessesOpen(manifest.processes, running).None?)
    ensures UninstallPackage(mode, host, repo, Some(rel), latest, running, m).failure.None?
  {
  }
}
