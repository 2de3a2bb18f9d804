/** What one command does to the stored files and what its answer means, in terms of paths, bytes and
    limits alone. */
module EditorEffects {
  import opened Wrappers
  import opened Paths
  import opened Digests
  import opened Autoindex
  import opened Manifests
  import opened Cycle
  import opened Image
  import opened Editor
  import opened FileSums
  import opened EditorProperties

  // ---- Effects ----

  /** A path with a trailing slash asks for everything below it, any other path for that file. */
  ghost predicate Asked(path: string, t: string) {
    t == path || (path != "" && path[|path| - 1] == '/' && path <= t)
  }

  lemma MatchesAsked(path: string, t: string)
    requires ValidFile(t)
    ensures Matches(path, t) <==> Asked(path, t)
  {
    hide ValidRelative;
    assert path != "" ==> path[|path| - 1..] == [path[|path| - 1]];
  }

  /** Whatever fails, a command that succeeds has done exactly what was asked: deletion removes the
      file, or everything below the directory, and nothing else; creation adds a file that was not
      there, and an update replaces one that was, with the bytes of the source. The answer is the
      number of paths affected. */
  lemma CommandEffect(
    sha: Digester, universe: set<Content>, manifestBytes: Encoding, registry: Registry, faults: Faults,
      command: Command)
    requires Honest(sha, registry) && CollisionFree(sha, universe) && Within(universe, registry, command)
    requires !command.dryRun && Step(sha, manifestBytes, registry, faults, command).0.Ok?
    ensures var (answer, after) := Step(sha, manifestBytes, registry, faults, command);
      var files, left, path := FilesIn(registry), FilesIn(after), command.path;
      if command.Delete? then
        && (forall t :: t in left <==> t in files && !(t == path || (path[|path| - 1] == '/' && path <= t)))
        && (forall t | t in left :: left[t] == files[t])
        && answer.value == |files| - |left| > 0
      else
        && command.source.Regular? && left == files[path := command.source.bytes]
        && (path in files <==> command.Update?)
        && answer.value == 1
  {
    hide Honest, FilesIn, Edited, Represents, ReferenceFor, Keeps, Step, CheckArguments, CheckCommand, ValidTitles;
    StepEditsOrLeaves(sha, universe, manifestBytes, registry, faults, command);
    SuccessChecked(sha, manifestBytes, registry, faults, command);
    EditEffect(FilesIn(registry), command);
  }

  /** A run that succeeds has passed the checks, on the paths of the stored files. */
  lemma SuccessChecked(sha: Digester, manifestBytes: Encoding, registry: Registry, faults: Faults, command: Command)
    requires !command.dryRun && Step(sha, manifestBytes, registry, faults, command).0.Ok?
    ensures ValidTitles(FilesIn(registry)) && CheckArguments(command).Ok?
    ensures CheckCommand(command, FilesIn(registry).Keys) == Step(sha, manifestBytes, registry, faults, command).0
  {
    hide LoadSnapshot, Materialized, CheckCommand, CheckArguments, Publishable, BlobsOf, FilesIn, Edited, Obstructed,
      ValidTitles, NoConflicts, WithinSize, SnapshotPaths, ReferenceFor;
    MaterializedIsStored(sha, manifestBytes, registry, faults);
  }

  lemma EditEffect(files: Files, command: Command)
    requires ValidTitles(files) && CheckArguments(command).Ok? && CheckCommand(command, files.Keys).Ok?
    ensures var left, path := Edited(files, command), command.path;
      && path != ""
      && if command.Delete? then
        && (forall t :: t in left <==> t in files && !Asked(path, t))
        && (forall t | t in left :: left[t] == files[t])
        && CheckCommand(command, files.Keys).value == |files| - |left| > 0
      else
        && command.source.Regular? && left == files[path := command.source.bytes]
        && (path in files <==> command.Update?)
        && CheckCommand(command, files.Keys).value == 1
  {
    hide ValidFile, Matches, Asked;
    PathGiven(command);
    forall t | t in files ensures Matches(command.path, t) <==> Asked(command.path, t) {
      MatchesAsked(command.path, t);
    }
    if command.Delete? {
      var matching := Matching(command.path, files.Keys);
      RemainingCount(files, matching);
    }
  }

  lemma PathGiven(command: Command)
    requires CheckArguments(command).Ok?
    ensures command.path != ""
  {
  }

  lemma RemainingCount(files: Files, removed: set<string>)
    requires removed <= files.Keys
    ensures |files - removed| == |files| - |removed|
  {
    assert (files - removed).Keys == files.Keys - removed;
    assert |(files - removed).Keys| == |files - removed| && |files.Keys| == |files|;
  }

  // ---- Answers ----

  /** The path is a title or a directory where one may be named, and the source can be published. */
  ghost predicate WellAsked(command: Command) {
    && ValidRelative(command.path)
    && command.path != "" && (command.path[|command.path| - 1] == '/' ==> command.Delete?)
  }

  ghost predicate SourceGiven(command: Command) {
    command.Delete? || (command.source.Regular? && |command.source.bytes| <= 67_108_864)
  }

  /** The manifest of the files, if there is one, is within 4 MiB. */
  ghost predicate Readable(sha: Digester, manifestBytes: Encoding, files: Files) {
    files == map[] || manifestBytes(ManifestOf(sha, files)) <= 4_194_304
  }

  /** There is something to update or delete. */
  ghost predicate Present(files: Files, command: Command) {
    match command
    case Create(_, _, _) => true
    case Update(_, path, _) => path in files
    case Delete(path, _) => exists t :: t in files && Asked(path, t)
  }

  /** A file stands where a directory is needed, or the other way round. */
  ghost predicate InTheWay(files: Files, path: string) {
    exists t :: t in files && t != path && (t + ['/'] <= path || path + ['/'] <= t)
  }

  /** The files a command leaves. */
  ghost function Left(files: Files, command: Command): Files {
    match command
    case Create(source, path, _) => if source.Regular? then files[path := source.bytes] else files
    case Update(source, path, _) => if source.Regular? then files[path := source.bytes] else files
    case Delete(path, _) => map t | t in files && !Asked(path, t) :: files[t]
  }

  /** What every answer tells about the files and the command, where nothing fails from outside: each
      refusal has exactly one reason, and comes only when no earlier one applies. */
  lemma AnswersTell(
    sha: Digester, universe: set<Content>, manifestBytes: Encoding, registry: Registry, files: Files, command: Command)
    requires Represents(sha, registry, files) && CollisionFree(sha, universe) && Within(universe, registry, command)
    ensures var answer := Step(sha, manifestBytes, registry, NO_FAULTS, command).0;
      answer ==
        if !WellAsked(command) then Err(BadPath)
        else if !SourceGiven(command) then Err(InvalidSource)
        else if !Readable(sha, manifestBytes, files) then Err(InvalidArtifact)
        else if command.Create? && command.path in files then Err(AlreadyExists)
        else if !Present(files, command) then Err(NoSuchPath)
        else if !command.dryRun && TotalBytes(files) > 67_108_864 then Err(InvalidArtifact)
        else if !command.dryRun && !command.Delete? && InTheWay(files, command.path) then Err(TemporaryStorage)
        else if !command.dryRun && Left(files, command) != map[] && !Publishable(sha, Left(files, command)) then
          Err(PublicationFailure)
        else Ok(if command.Delete? then |files| - |Left(files, command)| else 1)
  {
    hide Step, Decide, Represents, WellAsked, SourceGiven, Readable, Present, InTheWay, Left, TotalBytes, Publishable;
    StepSimulates(sha, universe, manifestBytes, registry, files, command);
    RepresentedTitles(sha, registry, files);
    ChecksTell(files, command);
    DecisionTells(sha, manifestBytes, files, command);
  }

  lemma RepresentedTitles(sha: Digester, registry: Registry, files: Files)
    requires Represents(sha, registry, files)
    ensures ValidTitles(files)
  {
    hide ValidTitles, NoConflicts, WithinSize, ReferenceFor;
  }

  /** Each check in the terms above. */
  lemma ChecksTell(files: Files, command: Command)
    requires ValidTitles(files)
    ensures CheckArguments(command) ==
      if !WellAsked(command) then Err(BadPath) else if !SourceGiven(command) then Err(InvalidSource) else Ok(())
    ensures WellAsked(command) ==>
      && Edited(files, command) == Left(files, command)
      && (Obstructed(files, command) <==> !command.Delete? && InTheWay(files, command.path))
      && CheckCommand(command, files.Keys) ==
        if command.Create? && command.path in files then Err(AlreadyExists)
        else if !Present(files, command) then Err(NoSuchPath)
        else Ok(if command.Delete? then |files| - |Left(files, command)| else 1)
  {
    hide Matches, Asked, CheckArguments, CheckCommand, WellAsked, SourceGiven, Edited, Left, Obstructed, InTheWay,
      Present, ValidFile;
    forall t | t in files ensures Matches(command.path, t) <==> Asked(command.path, t) {
      MatchesAsked(command.path, t);
    }
    ArgumentsTell(command);
    if command.Delete? {
      DeletionTells(files, command);
    } else {
      WritingTells(files, command);
      WayTells(files, command);
    }
  }

  lemma ArgumentsTell(command: Command)
    ensures CheckArguments(command) ==
      if !WellAsked(command) then Err(BadPath) else if !SourceGiven(command) then Err(InvalidSource) else Ok(())
  {
    hide ValidRelative, IsDirectory;
    SlashTells(command.path);
  }

  lemma WritingTells(files: Files, command: Command)
    requires !command.Delete?
    ensures Edited(files, command) == Left(files, command)
    ensures CheckCommand(command, files.Keys) ==
      if command.Create? && command.path in files then Err(AlreadyExists)
      else if !Present(files, command) then Err(NoSuchPath) else Ok(1)
  {
  }

  lemma SlashTells(path: string)
    ensures ValidRelative(path) ==> path != "" && (IsDirectory(path) <==> path[|path| - 1] == '/')
  {
    assert path != "" ==> path[|path| - 1..] == [path[|path| - 1]];
  }

  lemma DeletionTells(files: Files, command: Command)
    requires command.Delete?
    requires forall t | t in files :: Matches(command.path, t) <==> Asked(command.path, t)
    ensures Edited(files, command) == Left(files, command) && !Obstructed(files, command)
    ensures CheckCommand(command, files.Keys) ==
      if !Present(files, command) then Err(NoSuchPath) else Ok(|files| - |Left(files, command)|)
  {
    hide Matches, Asked;
    assert Edited(files, command) == Left(files, command);
    RemainingCount(files, Matching(command.path, files.Keys));
    if Present(files, command) {
      var t :| t in files && Asked(command.path, t);
      assert t in Matching(command.path, files.Keys);
    }
  }

  lemma WayTells(files: Files, command: Command)
    requires !command.Delete?
    ensures Obstructed(files, command) <==> InTheWay(files, command.path)
  {
    if Obstructed(files, command) {
      var t :| t in files && t != command.path && Conflict(t, command.path);
      assert t in files && (t + ['/'] <= command.path || command.path + ['/'] <= t);
    }
    if t :| t in files && t != command.path && (t + ['/'] <= command.path || command.path + ['/'] <= t) {
      assert Conflict(t, command.path);
    }
  }

  lemma DecisionTells(sha: Digester, manifestBytes: Encoding, files: Files, command: Command)
    requires CheckArguments(command) ==
      if !WellAsked(command) then Err(BadPath) else if !SourceGiven(command) then Err(InvalidSource) else Ok(())
    requires WellAsked(command) ==> Edited(files, command) == Left(files, command)
    ensures Decide(sha, manifestBytes, files, command) ==
      if !WellAsked(command) then Err(BadPath)
      else if !SourceGiven(command) then Err(InvalidSource)
      else if !Readable(sha, manifestBytes, files) then Err(InvalidArtifact)
      else if CheckCommand(command, files.Keys).Err? then CheckCommand(command, files.Keys)
      else if command.dryRun then CheckCommand(command, files.Keys)
      else if TotalBytes(files) > 67_108_864 then Err(InvalidArtifact)
      else if Obstructed(files, command) then Err(TemporaryStorage)
      else if Left(files, command) != map[] && !Publishable(sha, Left(files, command)) then Err(PublicationFailure)
      else CheckCommand(command, files.Keys)
  {
    hide CheckArguments, WellAsked, SourceGiven, Edited, Left, CheckCommand, TotalBytes, Obstructed, Publishable;
  }

  // ---- Faults ----

  /** Any one fault is enough for a command to fail, and the reference stays; only a failing upload
      may leave blobs behind. Previews need nothing but the manifest. */
  lemma FaultsRefuse(sha: Digester, manifestBytes: Encoding, registry: Registry, faults: Faults, command: Command)
    ensures var (answer, after) := Step(sha, manifestBytes, registry, faults, command);
      && (faults.load != Loads ==> answer.Err? && after == registry)
      && (command.dryRun ==> after == registry)
      && (command.dryRun && faults.load == Loads ==>
        answer == Step(sha, manifestBytes, registry, NO_FAULTS, command).0)
      && (!command.dryRun && faults.staging ==> answer.Err? && after == registry)
      && (!command.dryRun && faults.upload.FailsAfter? ==> answer.Err? && after.reference == registry.reference)
  {
    hide CheckArguments, CheckCommand, Materialized, Publishable, Obstructed, Edited, BlobsOf, ReferenceFor,
      SnapshotPaths;
    SnapshotLoads(manifestBytes, registry, faults);
    hide LoadSnapshot;
  }

  lemma SnapshotLoads(manifestBytes: Encoding, registry: Registry, faults: Faults)
    ensures faults.load != Loads ==> LoadSnapshot(manifestBytes, registry, faults).Err?
    ensures faults.load == Loads ==>
      LoadSnapshot(manifestBytes, registry, faults) == LoadSnapshot(manifestBytes, registry, NO_FAULTS)
  {
  }

  /** An indexed object that cannot be had as declared. */
  ghost predicate Unfetchable(sha: Digester, registry: Registry, faults: Faults, item: VisibleObject) {
    item.digest in faults.unreachable || item.digest !in registry.blobs
    || |registry.blobs[item.digest]| != item.size || sha(registry.blobs[item.digest]) != item.digest
  }

  /** Nothing is published as long as one stored file cannot be fetched as the manifest declares it. */
  lemma MissingRefuses(
    sha: Digester, manifestBytes: Encoding, registry: Registry, faults: Faults, command: Command, path: string)
    requires !command.dryRun
    requires registry.reference.Some? && ParseManifest(registry.reference.value).Ok?
    requires path in ParseManifest(registry.reference.value).value.objects
    requires Unfetchable(sha, registry, faults, ParseManifest(registry.reference.value).value.objects[path])
    ensures var (answer, after) := Step(sha, manifestBytes, registry, faults, command); answer.Err? && after == registry
  {
    hide LoadSnapshot, CheckArguments, CheckCommand, Materialized, Publishable, Obstructed, Edited, BlobsOf,
      ReferenceFor, Unfetchable, SnapshotPaths, ParseManifest;
    if LoadSnapshot(manifestBytes, registry, faults).Ok? {
      LoadedMissing(sha, manifestBytes, registry, faults, path);
    }
  }

  lemma LoadedMissing(sha: Digester, manifestBytes: Encoding, registry: Registry, faults: Faults, path: string)
    requires registry.reference.Some? && ParseManifest(registry.reference.value).Ok?
    requires path in ParseManifest(registry.reference.value).value.objects
    requires Unfetchable(sha, registry, faults, ParseManifest(registry.reference.value).value.objects[path])
    requires LoadSnapshot(manifestBytes, registry, faults).Ok?
    ensures Materialized(sha, registry, faults, LoadSnapshot(manifestBytes, registry, faults).value).Err?
  {
    hide ParseManifest, StageObjects, ObjectSequence, Unfetchable, Editable, LoadSnapshot;
    SnapshotEditable(manifestBytes, registry, faults);
    ObjectSequenced(registry.reference.value, path);
    var objects := ParseManifest(registry.reference.value).value.objects;
    UnfetchableStops(sha, registry, faults, ObjectSequence(objects), objects[path]);
  }

  lemma ObjectSequenced(m: Manifest, path: string)
    requires Editable(m) && path in ParseManifest(m).value.objects
    ensures var objects := ParseManifest(m).value.objects; objects[path] in ObjectSequence(objects)
  {
    hide ParseManifest, ObjectSequence;
    var objects := ParseManifest(m).value.objects;
    EditableObjects(m);
    ObjectSequenceDistinct(objects);
    assert objects[path] in objects.Values;
  }

  lemma SnapshotEditable(manifestBytes: Encoding, registry: Registry, faults: Faults)
    requires registry.reference.Some? && LoadSnapshot(manifestBytes, registry, faults).Ok?
    ensures Editable(registry.reference.value)
    ensures LoadSnapshot(manifestBytes, registry, faults).value == Some(ParseManifest(registry.reference.value).value)
  {
    hide ParseManifest;
  }

  lemma {:induction false} UnfetchableStops(
    sha: Digester, registry: Registry, faults: Faults, objects: seq<VisibleObject>, item: VisibleObject)
    requires item in objects && Unfetchable(sha, registry, faults, item)
    ensures StageObjects(sha, registry, faults, objects).Err?
  {
    hide ValidDescriptor;
    var n := |objects| - 1;
    if item != objects[n] {
      assert item in objects[..n];
      UnfetchableStops(sha, registry, faults, objects[..n], item);
    }
  }
}
