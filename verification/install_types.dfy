/** The data the desktop installer works on (src/utils/install.ts and the types it imports):
    an abstract filesystem, releases and their assets, the instruction manifest
    `manage.package`, the local install registry, and the collaborators the installer calls
    but whose code is not part of this model. */
module InstallTypes {
  import opened Wrappers

  type Path = string
  type Bytes = seq<bv8>

  /** Which files exist and what they hold; directories are not modelled. */
  type FileSystem = map<Path, Bytes>

  datatype Asset = Asset(id: nat, name: string)

  datatype Release = Release(id: nat, assets: seq<Asset>)

  datatype Repository = Repository(id: nat, owner: string, name: string)

  /** One entry of the manifest's `processes` list. */
  datatype ProcessConfig = ProcessConfig(name: string)

  /** One entry of the manifest's `install` or `uninstall` list; `action` is kept as the raw
      string because the interpreters skip actions they do not know. */
  datatype Operation = Operation(action: string, source: string, destination: string)

  /** The parsed `manage.package`; an absent `processes` list is `None`. */
  datatype Manifest = Manifest(
    version: int,
    processes: Option<seq<ProcessConfig>>,
    install: seq<Operation>,
    uninstall: seq<Operation>)

  /** The local install registry: package (repository) id to installed release id. */
  type Registry = map<nat, nat>

  /** An observable side effect, recorded in the order it happens. */
  datatype Effect =
    | Downloaded(assetId: nat, releaseId: nat)
    | Copied(from: Path, to: Path)
    | Extracted(archive: Path, dir: Path)
    | Opened(path: Path)
    | Deleted(path: Path)

  /** The collaborators the installer calls:
      - `resolve` expands placeholder tokens such as `$TEMP` (helpers.createActualPath);
      - `extract` expands an archive into a directory (extract-zip);
      - `download` fetches one release asset into the working directory (store github/getAsset);
      - `parseManifest` reads the manifest's JSON and validates it against the schema
        (fs.readJSONSync and helpers.validateSchema);
      - `ownerName` names a repository's owner (helpers.ownerName). */
  datatype Host = Host(
    resolve: string -> Path,
    extract: (FileSystem, Path, Path) -> Result<FileSystem, string>,
    download: (FileSystem, Repository, Release, Asset) -> Result<FileSystem, string>,
    parseManifest: Bytes -> Result<Manifest, string>,
    ownerName: Repository -> string)
}
