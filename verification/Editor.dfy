/** File-level editing of a published artifact: one command loads, stages, edits and republishes. */
module Editor {
  import opened Wrappers
  import opened Orders
  import opened Paths
  import opened Digests
  import opened Autoindex
  import opened Manifests
  import opened Publisher
  import opened Cycle

  const MAX_METADATA_BYTES := 4 * 1024 * 1024

  datatype CliError =
    | BadPath | InvalidSource | AlreadyExists | NoSuchPath | InvalidArtifact
    | RegistryFailure | TemporaryStorage | PublicationFailure | OrasFailure

  datatype Source = Regular(bytes: Content) | Unusable

  datatype Command =
    | Create(source: Source, path: string, dryRun: bool)
    | Update(source: Source, path: string, dryRun: bool)
    | Delete(path: string, dryRun: bool)

  /** The registry's view of one repository: the `autoindex.v1` reference and the blobs. */
  datatype Registry = Registry(reference: Option<Manifest>, blobs: map<string, Content>)

  /** What can go wrong outside the program during one run. A failed upload may leave some blobs
      behind, but never moves the reference. */
  datatype Faults = Faults(load: LoadFault, unreachable: set<string>, staging: bool, upload: UploadFault)
  datatype LoadFault = Loads | Denied | Broken
  datatype UploadFault = Uploads | FailsAfter(pushed: set<string>)

  /** `manifestBytes` is the length of a manifest's JSON encoding. */
  type Encoding = Manifest -> nat

  // ---- The steps of a run ----

  function LoadSnapshot(manifestBytes: Encoding, registry: Registry, faults: Faults)
    : Result<Option<Snapshot>, CliError>
  {
    if faults.load == Denied then Err(RegistryFailure)
    else if faults.load == Broken then Err(InvalidArtifact)
    else
      match registry.reference
      case None => Ok(None)
      case Some(m) =>
        if manifestBytes(m) > MAX_METADATA_BYTES then Err(InvalidArtifact) else
          match ParseManifest(m)
          case Err(_) => Err(InvalidArtifact)
          case Ok(snapshot) => if snapshot.crudCompatible then Ok(Some(snapshot)) else Err(InvalidArtifact)
  }

  /** A blob fetched through the verifying reader: only bytes of the declared size and digest. */
  function FetchBlob(sha: Digester, registry: Registry, faults: Faults, item: VisibleObject)
    : Result<Content, CliError>
  {
    if !ValidDescriptor(Descriptor(item.mediaType, item.digest, item.size, map[], map[])) then Err(RegistryFailure)
    else if item.digest in faults.unreachable || item.digest !in registry.blobs then Err(RegistryFailure)
    else
      var bytes := registry.blobs[item.digest];
      if |bytes| != item.size || sha(bytes) != item.digest then Err(InvalidArtifact) else Ok(bytes)
  }

  datatype Staging = Staging(files: Files, total: nat)

  /** One object of the snapshot: counted at its full size even when its content repeats. */
  function StageObject(sha: Digester, registry: Registry, faults: Faults, staging: Staging, item: VisibleObject)
    : Result<Staging, CliError>
  {
    if staging.total + item.size > MAX_PUBLICATION_BYTES then Err(InvalidArtifact) else
      var bytes :- FetchBlob(sha, registry, faults, item);
      Ok(Staging(staging.files[item.path := bytes], staging.total + item.size))
  }

  function StageObjects(sha: Digester, registry: Registry, faults: Faults, objects: seq<VisibleObject>)
    : Result<Staging, CliError>
  {
    if objects == [] then Ok(Staging(map[], 0)) else
      var staging :- StageObjects(sha, registry, faults, objects[..|objects| - 1]);
      StageObject(sha, registry, faults, staging, objects[|objects| - 1])
  }

  /** The objects of a snapshot in path order. */
  function ObjectSequence(objects: Objects): (r: seq<VisibleObject>)
    ensures |r| == |objects|
    ensures forall o | o in r :: o in objects.Values
  {
    TextStrictTotal();
    var paths := InOrder(TextLess, objects.Keys);
    assert forall i | 0 <= i < |paths| :: paths[i] in paths;
    seq(|paths|, i requires 0 <= i < |paths| => objects[paths[i]])
  }

  function Materialized(sha: Digester, registry: Registry, faults: Faults, snapshot: Option<Snapshot>)
    : Result<Files, CliError>
  {
    match snapshot
    case None => Ok(map[])
    case Some(s) =>
      var staging :- StageObjects(sha, registry, faults, ObjectSequence(s.objects));
      Ok(staging.files)
  }

  /** `matching_paths`: everything below a directory spelling, or the one path. */
  predicate Matches(requested: string, path: string) {
    if IsDirectory(requested) then requested <= path else path == requested
  }

  function Matching(requested: string, paths: set<string>): set<string> {
    set p | p in paths && Matches(requested, p)
  }

  function SnapshotPaths(snapshot: Option<Snapshot>): set<string> {
    match snapshot
    case None => {}
    case Some(s) => s.objects.Keys
  }

  /** The checks before anything is staged. */
  function CheckCommand(command: Command, paths: set<string>): Result<nat, CliError> {
    match command
    case Create(_, path, _) => if path in paths then Err(AlreadyExists) else Ok(1)
    case Update(_, path, _) => if path !in paths then Err(NoSuchPath) else Ok(1)
    case Delete(path, _) =>
      if Matching(path, paths) == {} then Err(NoSuchPath) else Ok(|Matching(path, paths)|)
  }

  function CheckArguments(command: Command): Result<(), CliError> {
    if !ValidRelative(command.path) then Err(BadPath)
    else if !command.Delete? && IsDirectory(command.path) then Err(BadPath)
    else if !command.Delete? && (command.source.Unusable? || |command.source.bytes| > MAX_PUBLICATION_BYTES) then
      Err(InvalidSource)
    else Ok(())
  }

  /** The abstract effect of a command on the stored files. */
  function Edited(files: Files, command: Command): Files {
    match command
    case Create(source, path, _) => if source.Regular? then files[path := source.bytes] else files
    case Update(source, path, _) => if source.Regular? then files[path := source.bytes] else files
    case Delete(path, _) => files - Matching(path, files.Keys)
  }

  /** A file is in the way of the path to be written. */
  ghost predicate Obstructed(files: Files, command: Command) {
    !command.Delete? && exists t | t in files :: t != command.path && Conflict(t, command.path)
  }

  datatype Plan = Preview(affected: nat) | Publish(files: Files, affected: nat)

  /** What a run decides to do, or why it stops. */
  ghost function Planned(sha: Digester, manifestBytes: Encoding, registry: Registry, faults: Faults, command: Command)
    : Result<Plan, CliError>
  {
    var _ :- CheckArguments(command);
    var snapshot :- LoadSnapshot(manifestBytes, registry, faults);
    var affected :- CheckCommand(command, SnapshotPaths(snapshot));
    if command.dryRun then Ok(Preview(affected))
    else if faults.staging then Err(TemporaryStorage)
    else
      var files :- Materialized(sha, registry, faults, snapshot);
      if Obstructed(files, command) then Err(TemporaryStorage)
      else
        var edited := Edited(files, command);
        if edited != map[] && !Publishable(sha, edited) then Err(PublicationFailure)
        else Ok(Publish(edited, affected))
  }

  /** The blobs of a publication of the files. */
  ghost function BlobsOf(sha: Digester, files: Files): map<string, Content> {
    map d | d in StoredDigests(sha, files) :: ContentWith(sha, files, d)
  }

  ghost function StoredDigests(sha: Digester, files: Files): set<string> {
    if files == map[] then {} else (set t | t in files :: sha(files[t])) + {sha(EMPTY_CONFIG)}
  }

  ghost function ContentWith(sha: Digester, files: Files, d: string): Content {
    if exists t :: t in files && sha(files[t]) == d then
      var t :| t in files && sha(files[t]) == d;
      files[t]
    else EMPTY_CONFIG
  }

  /** Pushing keeps what the registry already has. */
  function Pushed(have: map<string, Content>, pushed: map<string, Content>): map<string, Content> {
    pushed + have
  }

  ghost function ReferenceFor(sha: Digester, files: Files): Option<Manifest> {
    if files == map[] then None else Some(ManifestOf(sha, files))
  }

  /** One run: its answer and the registry it leaves. */
  ghost function Step(sha: Digester, manifestBytes: Encoding, registry: Registry, faults: Faults, command: Command)
    : (Result<nat, CliError>, Registry)
  {
    match Planned(sha, manifestBytes, registry, faults, command)
    case Err(e) => (Err(e), registry)
    case Ok(Preview(affected)) => (Ok(affected), registry)
    case Ok(Publish(files, affected)) =>
      var blobs := BlobsOf(sha, files);
      match faults.upload
      case FailsAfter(pushed) =>
        (Err(OrasFailure), registry.(blobs := Pushed(registry.blobs, map d | d in blobs && d in pushed :: blobs[d])))
      case Uploads =>
        (Ok(affected), Registry(ReferenceFor(sha, files), Pushed(registry.blobs, blobs)))
  }

  // ---- Reading the registry as files ----

  /** A content-addressed store: every blob has the digest it is stored under. */
  ghost predicate Honest(sha: Digester, registry: Registry) {
    forall d | d in registry.blobs :: sha(registry.blobs[d]) == d
  }

  /** The contents that occur in a registry and a command. */
  ghost predicate Within(universe: set<Content>, registry: Registry, command: Command) {
    && registry.blobs.Values <= universe && EMPTY_CONFIG in universe
    && (!command.Delete? && command.source.Regular? ==> command.source.bytes in universe)
  }

  /** The stored files: no manifest is the empty map; otherwise each indexed object's blob. */
  ghost function FilesIn(registry: Registry): Files {
    match registry.reference
    case None => map[]
    case Some(m) =>
      match ParseManifest(m)
      case Err(_) => map[]
      case Ok(snapshot) =>
        map t | t in snapshot.objects && snapshot.objects[t].digest in registry.blobs ::
          registry.blobs[snapshot.objects[t].digest]
  }
}
