/** The editor refines a map of files: one run edits the stored files as the command says, or
    leaves them alone. */
module EditorProperties {
  import opened Wrappers
  import opened Orders
  import opened Paths
  import opened Digests
  import opened Autoindex
  import opened Manifests
  import opened Projection
  import opened FileTrees
  import opened TitledTrees
  import opened Publisher
  import opened Conservation
  import opened Cycle
  import opened Image
  import opened Characterization
  import opened Editor
  import opened FileSums

  // ---- Materializing ----

  ghost function TotalSize(objects: seq<VisibleObject>): nat {
    if objects == [] then 0 else TotalSize(objects[..|objects| - 1]) + objects[|objects| - 1].size
  }

  /** The blob of an object can be fetched and is what the object declares. */
  ghost predicate Fetchable(sha: Digester, registry: Registry, item: VisibleObject) {
    item.digest in registry.blobs
    && |registry.blobs[item.digest]| == item.size && sha(registry.blobs[item.digest]) == item.digest
  }

  ghost predicate StagedAs(sha: Digester, registry: Registry, objects: seq<VisibleObject>, files: Files) {
    && (forall o | o in objects ::
      Fetchable(sha, registry, o) && o.path in files && files[o.path] == registry.blobs[o.digest])
    && (forall t | t in files :: exists o :: o in objects && o.path == t)
  }

  ghost predicate DistinctPaths(objects: seq<VisibleObject>) {
    forall i, j | 0 <= i < j < |objects| :: objects[i].path != objects[j].path
  }

  lemma StageSnoc(
    sha: Digester, registry: Registry, faults: Faults, init: seq<VisibleObject>, last: VisibleObject, staging: Staging)
    requires StagedAs(sha, registry, init, staging.files) && forall o | o in init :: o.path != last.path
    requires StageObject(sha, registry, faults, staging, last).Ok?
    ensures StagedAs(sha, registry, init + [last], StageObject(sha, registry, faults, staging, last).value.files)
  {
    hide ValidDescriptor;
    assert last in init + [last];
    assert forall o | o in init :: o in init + [last];
    assert forall o | o in init + [last] :: o in init || o == last;
  }

  lemma {:induction false} StageObjectsOk(
    sha: Digester, registry: Registry, faults: Faults, objects: seq<VisibleObject>)
    requires StageObjects(sha, registry, faults, objects).Ok? && DistinctPaths(objects)
    ensures StagedAs(sha, registry, objects, StageObjects(sha, registry, faults, objects).value.files)
    ensures StageObjects(sha, registry, faults, objects).value.total == TotalSize(objects) <= MAX_PUBLICATION_BYTES
  {
    hide StagedAs, FetchBlob;
    if objects == [] {
      EmptyStaged(sha, registry);
    } else {
      var n := |objects| - 1;
      var init, last := objects[..n], objects[n];
      StageObjectsOk(sha, registry, faults, init);
      assert objects == init + [last];
      StageSnoc(sha, registry, faults, init, last, StageObjects(sha, registry, faults, init).value);
    }
  }

  lemma EmptyStaged(sha: Digester, registry: Registry)
    ensures StagedAs(sha, registry, [], map[])
  {
  }

  ghost const NO_FAULTS := Faults(Loads, {}, false, Uploads)

  /** Without faults staging succeeds exactly within the byte limit, when every blob is there. */
  lemma {:induction false} StageObjectsIff(sha: Digester, registry: Registry, objects: seq<VisibleObject>)
    requires forall o | o in objects :: Fetchable(sha, registry, o)
    requires forall o | o in objects :: ValidDescriptor(Descriptor(o.mediaType, o.digest, o.size, map[], map[]))
    ensures StageObjects(sha, registry, NO_FAULTS, objects).Ok? <==> TotalSize(objects) <= MAX_PUBLICATION_BYTES
    ensures StageObjects(sha, registry, NO_FAULTS, objects).Ok? ==>
      StageObjects(sha, registry, NO_FAULTS, objects).value.total == TotalSize(objects)
    ensures StageObjects(sha, registry, NO_FAULTS, objects).Err? ==>
      StageObjects(sha, registry, NO_FAULTS, objects).error == InvalidArtifact
  {
    hide ValidDescriptor;
    if objects != [] {
      var n := |objects| - 1;
      assert objects[n] in objects && forall o | o in objects[..n] :: o in objects;
      StageObjectsIff(sha, registry, objects[..n]);
    }
  }

  lemma ObjectSequenceDistinct(objects: Objects)
    requires forall p | p in objects :: objects[p].path == p
    ensures DistinctPaths(ObjectSequence(objects))
    ensures forall o :: o in ObjectSequence(objects) <==> o in objects.Values
  {
    hide TextLess;
    TextStrictTotal();
    var paths := InOrder(TextLess, objects.Keys);
    var r := ObjectSequence(objects);
    assert forall i | 0 <= i < |paths| :: paths[i] in paths;
    forall i, j | 0 <= i < j < |r| ensures r[i].path != r[j].path {
      assert TextLess(paths[i], paths[j]);
    }
    forall p | p in objects ensures objects[p] in r {
      assert p in paths;
      var i :| 0 <= i < |paths| && paths[i] == p;
      assert r[i] == objects[p];
    }
  }

  // ---- What is loaded ----

  lemma EditableObjects(m: Manifest)
    requires Editable(m)
    ensures var objects := ParseManifest(m).value.objects;
      Projected(m.layers) && Holds(objects, ObjectsOf(m.layers)) && objects != map[]
    ensures forall p | p in ParseManifest(m).value.objects :: ParseManifest(m).value.objects[p].path == p
  {
    hide Project, IsNativeLayer, TitlesIncrease, Build, Projected, ObjectsOf, ValidDescriptor;
    CompatibleEnvelope(ConstantDigest, m);
    NativeProjected(m);
    LayersTitled(m.layers);
    ProjectIsBuild(m.layers);
    BuildSucceedsIff(ObjectsOf(m.layers));
    FirstObject(m.layers);
  }

  lemma FirstObject(layers: seq<Descriptor>)
    requires Projected(layers) && layers != []
    ensures ObjectsOf(layers) != [] && ObjectsOf(layers)[0] in ObjectsOf(layers)
  {
    hide ValidFile, ValidDescriptor;
  }

  lemma StagedStores(sha: Digester, registry: Registry, m: Manifest, files: Files)
    requires Editable(m)
    requires StagedAs(sha, registry, ObjectSequence(ParseManifest(m).value.objects), files)
    ensures Stores(sha, m, files)
    ensures registry.reference == Some(m) ==> FilesIn(registry) == files
  {
    hide ParseManifest, Projected, ObjectsOf, ObjectSequence, LayerTitled, StoredLayer, StagedAs, TextLess;
    EditableObjects(m);
    var objects := ParseManifest(m).value.objects;
    ObjectSequenceDistinct(objects);
    forall d | d in m.layers && HasTitle(d) ensures StoredLayer(sha, d, files) {
      LayerStaged(sha, registry, m, objects, files, d);
    }
    forall t | t in files ensures LayerTitled(m, t) {
      TitleStored(sha, registry, m, objects, files, t);
    }
    StagedIsFilesIn(sha, registry, objects, files);
  }

  lemma LayerStaged(sha: Digester, registry: Registry, m: Manifest, objects: Objects, files: Files, d: Descriptor)
    requires Projected(m.layers) && Holds(objects, ObjectsOf(m.layers)) && d in m.layers && HasTitle(d)
    requires forall o :: o in ObjectSequence(objects) <==> o in objects.Values
    requires StagedAs(sha, registry, ObjectSequence(objects), files)
    ensures StoredLayer(sha, d, files)
  {
    hide Projected, ObjectsOf, ObjectSequence;
    var o := LayerObject(m, objects, d);
    assert objects[o.path] in objects.Values;
  }

  lemma TitleStored(sha: Digester, registry: Registry, m: Manifest, objects: Objects, files: Files, t: string)
    requires Projected(m.layers) && Holds(objects, ObjectsOf(m.layers))
    requires forall o :: o in ObjectSequence(objects) <==> o in objects.Values
    requires StagedAs(sha, registry, ObjectSequence(objects), files) && t in files
    ensures LayerTitled(m, t)
  {
    hide Projected, ObjectsOf, ObjectSequence;
    var o :| o in ObjectSequence(objects) && o.path == t;
    var p :| p in objects && objects[p] == o;
    var d := ObjectLayer(m, objects, p);
  }

  lemma LayerObject(m: Manifest, objects: Objects, d: Descriptor) returns (o: VisibleObject)
    requires Projected(m.layers) && Holds(objects, ObjectsOf(m.layers)) && d in m.layers
    ensures HasTitle(d) && o == ObjectOf(d) && o.path == Title(d) && o.digest == d.digest && o.size == d.size
    ensures o.path in objects && objects[o.path] == o
  {
    hide ValidFile, ValidDescriptor;
    var i :| 0 <= i < |m.layers| && m.layers[i] == d;
    o := ObjectOf(d);
    assert ObjectsOf(m.layers)[i] == o;
    assert o in ObjectsOf(m.layers);
  }

  lemma ObjectLayer(m: Manifest, objects: Objects, p: string) returns (d: Descriptor)
    requires Projected(m.layers) && Holds(objects, ObjectsOf(m.layers)) && p in objects
    ensures d in m.layers && HasTitle(d) && Title(d) == p
  {
    hide ValidFile, ValidDescriptor;
    assert objects[p] in ObjectsOf(m.layers);
    var i :| 0 <= i < |ObjectsOf(m.layers)| && ObjectsOf(m.layers)[i] == objects[p];
    d := m.layers[i];
  }

  lemma StagedIsFilesIn(sha: Digester, registry: Registry, objects: Objects, files: Files)
    requires StagedAs(sha, registry, ObjectSequence(objects), files)
    requires forall p | p in objects :: objects[p].path == p
    requires forall o :: o in ObjectSequence(objects) <==> o in objects.Values
    ensures files == map t | t in objects && objects[t].digest in registry.blobs :: registry.blobs[objects[t].digest]
  {
    hide ObjectSequence;
    forall t | t in objects
      ensures t in files && files[t] == registry.blobs[objects[t].digest] && objects[t].digest in registry.blobs
    {
      assert objects[t] in objects.Values;
      assert objects[t] in ObjectSequence(objects);
    }
    forall t | t in files ensures t in objects {
      var o :| o in ObjectSequence(objects) && o.path == t;
      assert o in objects.Values;
    }
  }

  /** What a run materializes is what the registry stores, and its manifest is theirs. */
  lemma MaterializedIsStored(sha: Digester, manifestBytes: Encoding, registry: Registry, faults: Faults)
    requires LoadSnapshot(manifestBytes, registry, faults).Ok?
    requires Materialized(sha, registry, faults, LoadSnapshot(manifestBytes, registry, faults).value).Ok?
    ensures var snapshot := LoadSnapshot(manifestBytes, registry, faults).value;
      var files := Materialized(sha, registry, faults, snapshot).value;
      && files == FilesIn(registry)
      && SnapshotPaths(snapshot) == files.Keys
      && registry.reference == ReferenceFor(sha, files)
      && ValidTitles(files) && NoConflicts(files) && WithinSize(files)
  {
    hide StageObjects, ParseManifest, ManifestOf, StagedAs, Stores, ValidTitles, NoConflicts, WithinSize,
      ObjectSequence;
    if registry.reference.Some? {
      var m := registry.reference.value;
      var objects := ParseManifest(m).value.objects;
      EditableObjects(m);
      ObjectSequenceDistinct(objects);
      StageObjectsOk(sha, registry, faults, ObjectSequence(objects));
      var files := StageObjects(sha, registry, faults, ObjectSequence(objects)).value.files;
      StagedStores(sha, registry, m, files);
      CompatibleManifest(sha, m, files);
      EditableTitles(sha, m, files);
      StagedKeys(sha, registry, objects, files);
    } else {
      EmptyFilesValid();
    }
  }

  lemma StagedKeys(sha: Digester, registry: Registry, objects: Objects, files: Files)
    requires StagedAs(sha, registry, ObjectSequence(objects), files)
    requires forall p | p in objects :: objects[p].path == p
    requires forall o :: o in ObjectSequence(objects) <==> o in objects.Values
    ensures files.Keys == objects.Keys
  {
    hide ObjectSequence;
    StagedIsFilesIn(sha, registry, objects, files);
    forall t | t in objects ensures t in files {
      assert objects[t] in objects.Values;
      assert objects[t] in ObjectSequence(objects);
    }
  }

  lemma EmptyFilesValid()
    ensures ValidTitles(map[]) && NoConflicts(map[]) && WithinSize(map[])
  {
  }

  // ---- What is published ----

  /** The registry stores exactly these files, and could have got them from the publisher. */
  ghost predicate Represents(sha: Digester, registry: Registry, files: Files) {
    && Honest(sha, registry)
    && registry.reference == ReferenceFor(sha, files)
    && ValidTitles(files) && NoConflicts(files) && WithinSize(files)
    && (forall t | t in files :: sha(files[t]) in registry.blobs && registry.blobs[sha(files[t])] == files[t])
  }

  lemma RepresentedFiles(sha: Digester, registry: Registry, files: Files)
    requires Represents(sha, registry, files)
    ensures FilesIn(registry) == files
  {
    hide ParseManifest, ManifestOf, ValidTitles, NoConflicts, WithinSize, MediaTypeFor;
    if files != map[] {
      PublishedParses(sha, files);
    }
  }

  lemma BlobsHonest(sha: Digester, files: Files, d: string)
    requires d in BlobsOf(sha, files)
    ensures sha(BlobsOf(sha, files)[d]) == d
    ensures BlobsOf(sha, files)[d] == EMPTY_CONFIG || BlobsOf(sha, files)[d] in files.Values
  {
  }

  /** Pushing the blobs of a publication into an honest registry makes every file readable. */
  lemma PushedStores(sha: Digester, universe: set<Content>, registry: Registry, files: Files)
    requires Honest(sha, registry) && CollisionFree(sha, universe)
    requires registry.blobs.Values <= universe && files.Values <= universe && EMPTY_CONFIG in universe
    ensures var blobs := Pushed(registry.blobs, BlobsOf(sha, files));
      && (forall d | d in blobs :: sha(blobs[d]) == d)
      && blobs.Values <= universe
      && (forall t | t in files :: sha(files[t]) in blobs && blobs[sha(files[t])] == files[t])
  {
    hide BlobsOf;
    var pushed := BlobsOf(sha, files);
    var blobs := Pushed(registry.blobs, pushed);
    forall d | d in blobs ensures sha(blobs[d]) == d && blobs[d] in universe {
      if d in registry.blobs {
        assert registry.blobs[d] in registry.blobs.Values;
      } else {
        BlobsHonest(sha, files, d);
      }
    }
    forall t | t in files ensures sha(files[t]) in blobs && blobs[sha(files[t])] == files[t] {
      BlobsCover(sha, files, t);
      assert files[t] in files.Values;
      assert blobs[sha(files[t])] in universe;
    }
  }

  lemma BlobsCover(sha: Digester, files: Files, t: string)
    requires t in files
    ensures sha(files[t]) in BlobsOf(sha, files)
  {
  }

  // ---- What a command does to valid files ----

  lemma EditedValid(files: Files, command: Command)
    requires CheckArguments(command).Ok? && ValidTitles(files) && NoConflicts(files) && !Obstructed(files, command)
    ensures ValidTitles(Edited(files, command)) && NoConflicts(Edited(files, command))
  {
    hide ValidRelative, Ancestor;
    if !command.Delete? {
      assert ValidFile(command.path);
      forall t | t in files && t != command.path ensures !Conflict(t, command.path) && !Conflict(command.path, t) {
      }
    }
  }

  lemma EditedWithin(universe: set<Content>, registry: Registry, files: Files, command: Command)
    requires files.Values <= universe && Within(universe, registry, command)
    ensures Edited(files, command).Values <= universe
  {
    var edited := Edited(files, command);
    forall t | t in edited ensures edited[t] in universe {
      if t in files {
        assert files[t] in files.Values;
      }
    }
  }

  lemma StoredWithin(universe: set<Content>, registry: Registry)
    requires registry.blobs.Values <= universe
    ensures FilesIn(registry).Values <= universe
  {
    hide ParseManifest;
    var files := FilesIn(registry);
    forall t | t in files ensures files[t] in universe {
      assert files[t] in registry.blobs.Values;
    }
  }

  lemma PublishableTitles(sha: Digester, files: Files)
    requires files == map[] || Publishable(sha, files)
    ensures WithinSize(files)
  {
    hide Publishable;
    if files != map[] {
      PublishableWithinSize(sha, files);
    }
  }

  // ---- One run from any honest registry ----

  ghost predicate Keeps(before: Registry, after: Registry) {
    forall d | d in before.blobs :: d in after.blobs && after.blobs[d] == before.blobs[d]
  }

  /** Whatever the registry holds and whatever fails: a run that answers with an error, or only
      previews, leaves the reference and the stored files as they were; a run that answers with
      success leaves exactly the edited files, and no manifest when no file is left. */
  lemma StepEditsOrLeaves(
    sha: Digester, universe: set<Content>, manifestBytes: Encoding, registry: Registry, faults: Faults,
      command: Command)
    requires Honest(sha, registry) && CollisionFree(sha, universe) && Within(universe, registry, command)
    ensures var (answer, after) := Step(sha, manifestBytes, registry, faults, command);
      && Honest(sha, after) && after.blobs.Values <= universe
      && (answer.Ok? && command.dryRun ==> after == registry)
      && (answer.Err? ==>
        after.reference == registry.reference && Keeps(registry, after) && FilesIn(after) == FilesIn(registry))
      && (answer.Ok? && !command.dryRun ==>
            && Represents(sha, after, Edited(FilesIn(registry), command))
            && FilesIn(after) == Edited(FilesIn(registry), command)
            && after.reference == ReferenceFor(sha, Edited(FilesIn(registry), command))
            && (after.reference == None <==> Edited(FilesIn(registry), command) == map[]))
  {
    hide LoadSnapshot, Materialized, CheckCommand, CheckArguments, Publishable, ManifestOf, BlobsOf, FilesIn, Edited,
      Obstructed, ValidTitles, NoConflicts, WithinSize, Represents, SnapshotPaths, Honest;
    var (answer, after) := Step(sha, manifestBytes, registry, faults, command);
    var planned := Planned(sha, manifestBytes, registry, faults, command);
    if planned.Ok? && planned.value.Publish? {
      MaterializedIsStored(sha, manifestBytes, registry, faults);
      StoredWithin(universe, registry);
      EditedWithin(universe, registry, FilesIn(registry), command);
      EditedValid(FilesIn(registry), command);
      var edited := Edited(FilesIn(registry), command);
      PushedStores(sha, universe, registry, edited);
      if faults.upload.Uploads? {
        PublishableTitles(sha, edited);
        RepresentsAfter(sha, registry, edited);
        RepresentedFiles(sha, after, edited);
        RepresentedHonest(sha, after, edited);
      } else {
        PartlyPushed(sha, universe, registry, edited, faults.upload.pushed);
        FilesKept(manifestBytes, registry, faults, after);
      }
    }
  }

  /** Where every indexed object is stored, more blobs change no file. */
  lemma FilesKept(manifestBytes: Encoding, registry: Registry, faults: Faults, after: Registry)
    requires LoadSnapshot(manifestBytes, registry, faults).Ok?
    requires SnapshotPaths(LoadSnapshot(manifestBytes, registry, faults).value) == FilesIn(registry).Keys
    requires after.reference == registry.reference && Keeps(registry, after)
    ensures FilesIn(after) == FilesIn(registry)
  {
    hide ParseManifest;
  }

  lemma RepresentsAfter(sha: Digester, registry: Registry, files: Files)
    requires ValidTitles(files) && NoConflicts(files) && WithinSize(files)
    requires var blobs := Pushed(registry.blobs, BlobsOf(sha, files));
      && (forall d | d in blobs :: sha(blobs[d]) == d)
      && (forall t | t in files :: sha(files[t]) in blobs && blobs[sha(files[t])] == files[t])
    ensures Represents(sha, Registry(ReferenceFor(sha, files), Pushed(registry.blobs, BlobsOf(sha, files))), files)
  {
    hide ValidTitles, NoConflicts, WithinSize, BlobsOf, ReferenceFor;
  }

  lemma PartlyPushed(sha: Digester, universe: set<Content>, registry: Registry, files: Files, pushed: set<string>)
    requires Honest(sha, registry) && registry.blobs.Values <= universe
    requires var blobs := Pushed(registry.blobs, BlobsOf(sha, files));
      (forall d | d in blobs :: sha(blobs[d]) == d) && blobs.Values <= universe
    ensures var part := map d | d in BlobsOf(sha, files) && d in pushed :: BlobsOf(sha, files)[d];
      var after := registry.(blobs := Pushed(registry.blobs, part));
      && Honest(sha, after) && after.blobs.Values <= universe
      && Keeps(registry, after)
  {
    hide BlobsOf;
    var whole := Pushed(registry.blobs, BlobsOf(sha, files));
    var part := map d | d in BlobsOf(sha, files) && d in pushed :: BlobsOf(sha, files)[d];
    var after := Pushed(registry.blobs, part);
    forall d | d in after ensures d in whole && after[d] == whole[d] && after[d] in universe {
      assert whole[d] in whole.Values;
    }
  }

  // ---- The editor without faults is a machine on maps of files ----

  lemma {:induction false} SizesAlong(sha: Digester, files: Files, titles: seq<string>, objects: seq<VisibleObject>)
    requires |titles| == |objects|
    requires forall i | 0 <= i < |titles| :: titles[i] in files && objects[i].size == |files[titles[i]]|
    requires forall t | t in titles :: t in files
    ensures TotalSize(objects) == LengthsAlong(files, titles)
  {
    if titles != [] {
      var n := |titles| - 1;
      assert forall t | t in titles[..n] :: t in titles;
      SizesAlong(sha, files, titles[..n], objects[..n]);
    }
  }

  /** What the editor counts while staging is the total length of the files. */
  lemma StagedTotal(sha: Digester, files: Files)
    ensures TotalSize(ObjectSequence(ObjectsFor(sha, files))) == TotalBytes(files)
  {
    hide TextLess, MediaTypeFor;
    TextStrictTotal();
    var titles := InOrder(TextLess, files.Keys);
    assert ObjectsFor(sha, files).Keys == files.Keys;
    assert forall i | 0 <= i < |titles| :: titles[i] in titles;
    forall i, j | 0 <= i < j < |titles| ensures titles[i] != titles[j] {
      assert TextLess(titles[i], titles[j]);
    }
    TotalAlong(files, titles);
    SizesAlong(sha, files, titles, ObjectSequence(ObjectsFor(sha, files)));
  }

  /** What the publisher counts for a tree is at most what staging its publication counts, and the
      two are equal exactly when no non-empty content occurs twice in the tree. */
  lemma TotalsAgreeIff(sha: Digester, root: Node)
    requires root.Directory? && WellNamed(root) && DraftOf(sha, root, Walk(root, [])).Ok?
    requires CollisionFree(sha, TitledContents(root).Values)
    ensures var files := TitledContents(root);
      var published, staged :=
        DraftOf(sha, root, Walk(root, [])).value.totalBytes, TotalSize(ObjectSequence(ObjectsFor(sha, files)));
      published <= staged && (published == staged <==> NothingRepeated(files))
  {
    hide WellNamed, TitledContents, DraftOf, Walk, ObjectsFor, ObjectSequence, TotalSize, TotalBytes, SizeOf,
      ContentsInOrder;
    var files := TitledContents(root);
    TreeContents(root);
    OrderedMembers(files);
    StoredContents(sha, root, Walk(root, []));
    TotalOfDistinct(files);
    StagedTotal(sha, files);
  }

  ghost predicate Loadable(sha: Digester, manifestBytes: Encoding, files: Files) {
    files == map[] || manifestBytes(ManifestOf(sha, files)) <= 4_194_304
  }

  /** The answer to a command, decided on the files alone. */
  ghost function Decide(sha: Digester, manifestBytes: Encoding, files: Files, command: Command): Result<nat, CliError> {
    var _ :- CheckArguments(command);
    if !Loadable(sha, manifestBytes, files) then Err(InvalidArtifact) else
      var affected :- CheckCommand(command, files.Keys);
      if command.dryRun then Ok(affected)
      else if TotalBytes(files) > MAX_PUBLICATION_BYTES then Err(InvalidArtifact)
      else if Obstructed(files, command) then Err(TemporaryStorage)
      else if Edited(files, command) != map[] && !Publishable(sha, Edited(files, command)) then Err(PublicationFailure)
      else Ok(affected)
  }

  ghost function Next(sha: Digester, manifestBytes: Encoding, files: Files, command: Command): Files {
    if Decide(sha, manifestBytes, files, command).Ok? && !command.dryRun then Edited(files, command) else files
  }

  ghost function SnapshotOf(sha: Digester, files: Files): Option<Snapshot> {
    if files == map[] then None else Some(Snapshot(ObjectsFor(sha, files), true))
  }

  lemma RepresentedLoads(sha: Digester, manifestBytes: Encoding, registry: Registry, files: Files)
    requires Represents(sha, registry, files)
    ensures LoadSnapshot(manifestBytes, registry, NO_FAULTS) ==
      if Loadable(sha, manifestBytes, files) then Ok(SnapshotOf(sha, files)) else Err(InvalidArtifact)
    ensures SnapshotPaths(SnapshotOf(sha, files)) == files.Keys
  {
    hide ParseManifest, ManifestOf, ValidTitles, NoConflicts, WithinSize, ObjectFor;
    if files != map[] {
      PublishedParses(sha, files);
    }
  }

  lemma ObjectsFetchable(sha: Digester, registry: Registry, files: Files)
    requires Represents(sha, registry, files)
    ensures forall o | o in ObjectSequence(ObjectsFor(sha, files)) :: Fetchable(sha, registry, o)
    ensures forall o | o in ObjectSequence(ObjectsFor(sha, files)) ::
      ValidDescriptor(Descriptor(o.mediaType, o.digest, o.size, map[], map[]))
    ensures forall p | p in ObjectsFor(sha, files) :: ObjectsFor(sha, files)[p].path == p
  {
    hide ManifestOf, ValidTitles, NoConflicts, MediaTypeFor, ValidDigest, PrintableMediaType, ObjectSequence;
    forall o | o in ObjectSequence(ObjectsFor(sha, files))
      ensures Fetchable(sha, registry, o) && ValidDescriptor(Descriptor(o.mediaType, o.digest, o.size, map[], map[]))
    {
      assert o in ObjectsFor(sha, files).Values;
      var t :| t in files && ObjectFor(sha, t, files[t]) == o;
      MediaTypePrintable(t);
    }
  }

  lemma RepresentedMaterializes(sha: Digester, registry: Registry, files: Files)
    requires Represents(sha, registry, files)
    ensures Materialized(sha, registry, NO_FAULTS, SnapshotOf(sha, files)) ==
      if TotalBytes(files) <= MAX_PUBLICATION_BYTES then Ok(files) else Err(InvalidArtifact)
  {
    hide ManifestOf, ValidTitles, NoConflicts, WithinSize, StageObjects, ObjectSequence, StagedAs, ValidDescriptor,
      Fetchable, TotalSize, ObjectFor, TotalBytes;
    StagedTotal(sha, files);
    var objects := ObjectSequence(ObjectsFor(sha, files));
    ObjectsFetchable(sha, registry, files);
    if files == map[] {
      assert objects == [] by { assert |objects| == |ObjectsFor(sha, files)|; }
      EmptyTotal();
    } else {
      StageObjectsIff(sha, registry, objects);
      ObjectSequenceDistinct(ObjectsFor(sha, files));
      if StageObjects(sha, registry, NO_FAULTS, objects).Ok? {
        StageObjectsOk(sha, registry, NO_FAULTS, objects);
        StagedIsFiles(sha, registry, files, StageObjects(sha, registry, NO_FAULTS, objects).value.files);
      }
    }
  }

  lemma EmptyTotal()
    ensures TotalSize([]) == 0
  {
  }

  lemma StagedIsFiles(sha: Digester, registry: Registry, files: Files, staged: Files)
    requires Represents(sha, registry, files)
    requires StagedAs(sha, registry, ObjectSequence(ObjectsFor(sha, files)), staged)
    requires forall o :: o in ObjectSequence(ObjectsFor(sha, files)) <==> o in ObjectsFor(sha, files).Values
    requires forall p | p in ObjectsFor(sha, files) :: ObjectsFor(sha, files)[p].path == p
    ensures staged == files
  {
    hide ManifestOf, ValidTitles, NoConflicts, WithinSize, ObjectSequence, StagedAs, MediaTypeFor;
    StagedIsFilesIn(sha, registry, ObjectsFor(sha, files), staged);
  }

  /** Without faults a run answers what is decided on the files alone, and leaves a registry that
      stores exactly the files decided: the whole editor refines a map of files. */
  lemma StepSimulates(
    sha: Digester, universe: set<Content>, manifestBytes: Encoding, registry: Registry, files: Files, command: Command)
    requires Represents(sha, registry, files) && CollisionFree(sha, universe) && Within(universe, registry, command)
    ensures var (answer, after) := Step(sha, manifestBytes, registry, NO_FAULTS, command);
      && answer == Decide(sha, manifestBytes, files, command)
      && Represents(sha, after, Next(sha, manifestBytes, files, command))
      && after.blobs.Values <= universe
  {
    hide Planned, Decide, Represents, BlobsOf, FilesIn, Edited, ReferenceFor;
    PlannedAsDecided(sha, manifestBytes, registry, files, command);
    RepresentedFiles(sha, registry, files);
    RepresentedHonest(sha, registry, files);
    StepEditsOrLeaves(sha, universe, manifestBytes, registry, NO_FAULTS, command);
  }

  lemma RepresentedHonest(sha: Digester, registry: Registry, files: Files)
    requires Represents(sha, registry, files)
    ensures Honest(sha, registry)
  {
  }

  /** What a run plans is what is decided on the files alone. */
  lemma PlannedAsDecided(sha: Digester, manifestBytes: Encoding, registry: Registry, files: Files, command: Command)
    requires Represents(sha, registry, files)
    ensures var decided := Decide(sha, manifestBytes, files, command);
      match Planned(sha, manifestBytes, registry, NO_FAULTS, command)
      case Err(e) => decided == Err(e)
      case Ok(Preview(affected)) => command.dryRun && decided == Ok(affected)
      case Ok(Publish(_, affected)) => !command.dryRun && decided == Ok(affected)
  {
    hide LoadSnapshot, Materialized, CheckCommand, CheckArguments, Publishable, ManifestOf, FilesIn, Edited, Obstructed,
      TotalBytes, Loadable, SnapshotOf, SnapshotPaths;
    RepresentedLoads(sha, manifestBytes, registry, files);
    RepresentedMaterializes(sha, registry, files);
    RepresentedFiles(sha, registry, files);
  }

  // ---- Runs ----

  ghost predicate Sources(universe: set<Content>, commands: seq<Command>) {
    && EMPTY_CONFIG in universe
    && forall c | c in commands :: !c.Delete? && c.source.Regular? ==> c.source.bytes in universe
  }

  /** A sequence of runs without faults: the answers and the registry in the end. */
  ghost function RunAll(sha: Digester, manifestBytes: Encoding, registry: Registry, commands: seq<Command>)
    : (seq<Result<nat, CliError>>, Registry)
  {
    if commands == [] then ([], registry) else
      var (answers, before) := RunAll(sha, manifestBytes, registry, commands[..|commands| - 1]);
      var (answer, after) := Step(sha, manifestBytes, before, NO_FAULTS, commands[|commands| - 1]);
      (answers + [answer], after)
  }

  /** The same sequence on the map of files. */
  ghost function DecideAll(sha: Digester, manifestBytes: Encoding, files: Files, commands: seq<Command>)
    : (seq<Result<nat, CliError>>, Files)
  {
    if commands == [] then ([], files) else
      var (answers, before) := DecideAll(sha, manifestBytes, files, commands[..|commands| - 1]);
      var command := commands[|commands| - 1];
      (answers + [Decide(sha, manifestBytes, before, command)], Next(sha, manifestBytes, before, command))
  }

  /** Over every sequence of commands the registry answers and evolves as the map of files does. */
  lemma {:induction false} RunSimulates(
    sha: Digester, universe: set<Content>, manifestBytes: Encoding, registry: Registry, files: Files,
      commands: seq<Command>)
    requires Represents(sha, registry, files) && CollisionFree(sha, universe)
    requires registry.blobs.Values <= universe && Sources(universe, commands)
    ensures var (answers, after) := RunAll(sha, manifestBytes, registry, commands);
      var (decided, left) := DecideAll(sha, manifestBytes, files, commands);
      && answers == decided
      && Represents(sha, after, left) && FilesIn(after) == left
      && (after.reference == None <==> left == map[])
      && after.blobs.Values <= universe
  {
    hide Step, Decide, Next, Represents, FilesIn, ManifestOf;
    if commands != [] {
      var n := |commands| - 1;
      var init, last := commands[..n], commands[n];
      assert last in commands && forall c | c in init :: c in commands;
      RunSimulates(sha, universe, manifestBytes, registry, files, init);
      var (answers, before) := RunAll(sha, manifestBytes, registry, init);
      var (decided, left) := DecideAll(sha, manifestBytes, files, init);
      StepSimulates(sha, universe, manifestBytes, before, left, last);
    }
    var (answers, after) := RunAll(sha, manifestBytes, registry, commands);
    var (decided, left) := DecideAll(sha, manifestBytes, files, commands);
    RepresentedFiles(sha, after, left);
    RepresentedReference(sha, after, left);
  }

  // ---- Runs under faults ----

  /** A command as it is run, with what goes wrong while it runs. */
  datatype Attempt = Attempt(faults: Faults, command: Command)

  /** The answers and the final registry of a sequence of attempts. */
  ghost function AttemptAll(sha: Digester, manifestBytes: Encoding, registry: Registry, attempts: seq<Attempt>)
    : (r: (seq<Result<nat, CliError>>, Registry))
    ensures |r.0| == |attempts|
  {
    if attempts == [] then ([], registry) else
      var last := attempts[|attempts| - 1];
      var (answers, before) := AttemptAll(sha, manifestBytes, registry, attempts[..|attempts| - 1]);
      var (answer, after) := Step(sha, manifestBytes, before, last.faults, last.command);
      (answers + [answer], after)
  }

  /** The attempt was answered with success and was no preview. */
  predicate TookEffect(attempt: Attempt, answer: Result<nat, CliError>) {
    answer.Ok? && !attempt.command.dryRun
  }

  /** The files after exactly the edits that took effect. */
  function EditedBy(files: Files, attempts: seq<Attempt>, answers: seq<Result<nat, CliError>>): Files
    requires |answers| == |attempts|
  {
    if attempts == [] then files else
      var n := |attempts| - 1;
      var before := EditedBy(files, attempts[..n], answers[..n]);
      if TookEffect(attempts[n], answers[n]) then Edited(before, attempts[n].command) else before
  }

  ghost predicate AnyTookEffect(attempts: seq<Attempt>, answers: seq<Result<nat, CliError>>)
    requires |answers| == |attempts|
  {
    exists i :: 0 <= i < |attempts| && TookEffect(attempts[i], answers[i])
  }

  ghost predicate AttemptSources(universe: set<Content>, attempts: seq<Attempt>) {
    && EMPTY_CONFIG in universe
    && forall a | a in attempts ::
      !a.command.Delete? && a.command.source.Regular? ==> a.command.source.bytes in universe
  }

  /** Whatever an honest registry holds at first and whatever fails in between, the stored files end
      up edited by exactly the commands that were answered with success and were no previews, in
      order; the reference is their manifest, none when no file is left, or untouched when no
      command took effect. */
  lemma {:induction false} AttemptsEditExactly(
    sha: Digester, universe: set<Content>, manifestBytes: Encoding, registry: Registry, attempts: seq<Attempt>)
    requires Honest(sha, registry) && CollisionFree(sha, universe)
    requires registry.blobs.Values <= universe && AttemptSources(universe, attempts)
    ensures var (answers, after) := AttemptAll(sha, manifestBytes, registry, attempts);
      && Honest(sha, after) && after.blobs.Values <= universe
      && FilesIn(after) == EditedBy(FilesIn(registry), attempts, answers)
      && after.reference
        == if AnyTookEffect(attempts, answers) then ReferenceFor(sha, FilesIn(after)) else registry.reference
  {
    hide Honest, FilesIn, Step, Edited, EditedBy, AttemptAll, ReferenceFor, Represents, Keeps, AnyTookEffect;
    if attempts == [] {
      NothingAttempted(sha, manifestBytes, registry, FilesIn(registry));
    } else {
      var n := |attempts| - 1;
      var init, last := attempts[..n], attempts[n];
      assert attempts == init + [last];
      SourcesSnoc(universe, init, last);
      AttemptsEditExactly(sha, universe, manifestBytes, registry, init);
      AttemptSnoc(sha, manifestBytes, registry, init, last);
      var (answers, before) := AttemptAll(sha, manifestBytes, registry, init);
      var (answer, after) := Step(sha, manifestBytes, before, last.faults, last.command);
      WithinAfter(universe, before, last);
      StepEditsOrLeaves(sha, universe, manifestBytes, before, last.faults, last.command);
      EditedSnoc(FilesIn(registry), init, answers, last, answer);
      TookEffectSnoc(init, answers, last, answer);
    }
  }

  lemma NothingAttempted(sha: Digester, manifestBytes: Encoding, registry: Registry, files: Files)
    ensures AttemptAll(sha, manifestBytes, registry, []) == ([], registry)
    ensures EditedBy(files, [], []) == files && !AnyTookEffect([], [])
  {
  }

  lemma SourcesSnoc(universe: set<Content>, init: seq<Attempt>, last: Attempt)
    requires AttemptSources(universe, init + [last])
    ensures AttemptSources(universe, init) && AttemptSources(universe, [last])
  {
    assert last in init + [last] && forall a | a in init :: a in init + [last];
  }

  lemma WithinAfter(universe: set<Content>, registry: Registry, attempt: Attempt)
    requires registry.blobs.Values <= universe && AttemptSources(universe, [attempt])
    ensures Within(universe, registry, attempt.command)
  {
    assert attempt in [attempt];
  }

  lemma AttemptSnoc(sha: Digester, manifestBytes: Encoding, registry: Registry, init: seq<Attempt>, last: Attempt)
    ensures var (answers, before) := AttemptAll(sha, manifestBytes, registry, init);
      var (answer, after) := Step(sha, manifestBytes, before, last.faults, last.command);
      AttemptAll(sha, manifestBytes, registry, init + [last]) == (answers + [answer], after)
  {
    hide Step;
    assert (init + [last])[..|init|] == init;
  }

  lemma EditedSnoc(
    files: Files, init: seq<Attempt>, answers: seq<Result<nat, CliError>>, last: Attempt, answer: Result<nat, CliError>)
    requires |answers| == |init|
    ensures EditedBy(files, init + [last], answers + [answer]) ==
      if TookEffect(last, answer) then Edited(EditedBy(files, init, answers), last.command)
      else EditedBy(files, init, answers)
  {
    hide Edited, TookEffect;
    assert (init + [last])[..|init|] == init && (answers + [answer])[..|init|] == answers;
  }

  lemma TookEffectSnoc(
    attempts: seq<Attempt>, answers: seq<Result<nat, CliError>>, last: Attempt, answer: Result<nat, CliError>)
    requires |answers| == |attempts|
    ensures AnyTookEffect(attempts + [last], answers + [answer]) <==>
      AnyTookEffect(attempts, answers) || TookEffect(last, answer)
  {
    hide TookEffect;
    var more, replies := attempts + [last], answers + [answer];
    assert more[|attempts|] == last && replies[|attempts|] == answer;
    if AnyTookEffect(attempts, answers) {
      var i :| 0 <= i < |attempts| && TookEffect(attempts[i], answers[i]);
      assert more[i] == attempts[i] && replies[i] == answers[i];
    }
    if i :| 0 <= i < |more| && TookEffect(more[i], replies[i]) && i < |attempts| {
      assert more[i] == attempts[i] && replies[i] == answers[i];
    }
  }

  lemma RepresentedReference(sha: Digester, registry: Registry, files: Files)
    requires Represents(sha, registry, files)
    ensures registry.reference == None <==> files == map[]
  {
  }
}
