/** The editor's run step by step: a staged tree is written, edited, published and pushed. */
module Repository {
  import opened Wrappers
  import opened Text
  import opened Orders
  import opened Paths
  import opened Digests
  import opened Autoindex
  import opened Manifests
  import opened FileTrees
  import opened TitledTrees
  import opened Publisher
  import opened Conservation
  import opened Cycle
  import opened Image
  import opened Characterization
  import opened Editor
  import opened EditorProperties

  // ---- Materializing into a tree ----

  /** `materialize_snapshot`: fetches every object and writes it below the root. */
  method Materialize(sha: Digester, registry: Registry, faults: Faults, objects: Objects)
    returns (r: Result<Node, CliError>)
    requires Projectable(objects)
    ensures r.Ok? ==> Staged(r.value)
    ensures r.Ok? ==> Materialized(sha, registry, faults, Some(Snapshot(objects, true))) == Ok(TitledContents(r.value))
    ensures r.Err? ==> Materialized(sha, registry, faults, Some(Snapshot(objects, true))) == Err(r.error)
  {
    hide Staged, TitledContents, Projectable, Write, StageObject, ObjectSequence, FetchBlob, ValidFile, DistinctPaths;
    EmptyRootStaged();
    var sequence := ObjectSequence(objects);
    SequenceFree(objects);
    var root := EMPTY_ROOT;
    var total: nat := 0;
    var i := 0;
    while i < |sequence|
      invariant 0 <= i <= |sequence|
      invariant Staged(root)
      invariant StageObjects(sha, registry, faults, sequence[..i]) == Ok(Staging(TitledContents(root), total))
      invariant forall t | t in TitledContents(root) :: TitleStaged(sequence[..i], t)
    {
      var item := sequence[i];
      StageStep(sha, registry, faults, sequence, i);
      var fetched := FetchWithin(sha, registry, faults, TitledContents(root), total, item);
      if fetched.Err? {
        StageStops(sha, registry, faults, sequence, i + 1);
        return Err(fetched.error);
      }
      NotInTheWay(sequence, i, TitledContents(root));
      StagedWrite(root, item.path, fetched.value);
      TakeSnoc(sequence, i);
      StagedNext(sequence[..i], item, sequence[..i + 1], TitledContents(root), fetched.value);
      root := Write(root, TitleName(item.path), fetched.value).value;
      total := total + item.size;
      i := i + 1;
    }
    assert sequence[..i] == sequence;
    return Ok(root);
  }

  /** The running total is checked before the blob is fetched. */
  method FetchWithin(
    sha: Digester, registry: Registry, faults: Faults, ghost files: Files, total: nat, item: VisibleObject)
    returns (r: Result<Content, CliError>)
    ensures r.Ok? ==>
      StageObject(sha, registry, faults, Staging(files, total), item)
        == Ok(Staging(files[item.path := r.value], total + item.size))
    ensures r.Err? ==> StageObject(sha, registry, faults, Staging(files, total), item) == Err(r.error)
  {
    hide FetchBlob;
    if total + item.size > MAX_PUBLICATION_BYTES {
      return Err(InvalidArtifact);
    }
    r := FetchBlob(sha, registry, faults, item);
  }

  lemma StageStep(sha: Digester, registry: Registry, faults: Faults, objects: seq<VisibleObject>, i: nat)
    requires i < |objects| && StageObjects(sha, registry, faults, objects[..i]).Ok?
    ensures StageObjects(sha, registry, faults, objects[..i + 1]) ==
      StageObject(sha, registry, faults, StageObjects(sha, registry, faults, objects[..i]).value, objects[i])
  {
    hide StageObject;
    assert objects[..i + 1][..i] == objects[..i];
  }

  lemma {:induction false} StageStops(
    sha: Digester, registry: Registry, faults: Faults, objects: seq<VisibleObject>, i: nat)
    requires i <= |objects| && StageObjects(sha, registry, faults, objects[..i]).Err?
    ensures StageObjects(sha, registry, faults, objects) == StageObjects(sha, registry, faults, objects[..i])
    decreases |objects| - i
  {
    hide StageObject;
    if i == |objects| {
      assert objects[..i] == objects;
    } else {
      assert objects[..i + 1][..i] == objects[..i];
      StageStops(sha, registry, faults, objects, i + 1);
    }
  }

  ghost predicate TitleStaged(objects: seq<VisibleObject>, t: string) {
    exists o :: o in objects && o.path == t
  }

  ghost predicate SequenceConflictFree(objects: seq<VisibleObject>) {
    && (forall o | o in objects :: ValidFile(o.path))
    && (forall i, j | 0 <= i < j < |objects| :: !Conflict(objects[i].path, objects[j].path))
  }

  lemma SequenceFree(objects: Objects)
    requires Projectable(objects)
    ensures SequenceConflictFree(ObjectSequence(objects))
  {
    hide ValidFile, Conflict, TextLess;
    TextStrictTotal();
    var paths, r := InOrder(TextLess, objects.Keys), ObjectSequence(objects);
    forall i | 0 <= i < |r| ensures r[i] == objects[paths[i]] && paths[i] in objects && r[i].path == paths[i] {
      assert paths[i] in paths;
    }
    forall o | o in r ensures ValidFile(o.path) {
      var i :| 0 <= i < |r| && r[i] == o;
      assert ValidFile(paths[i]);
    }
    forall i, j | 0 <= i < j < |r| ensures !Conflict(r[i].path, r[j].path) {
      assert TextLess(paths[i], paths[j]);
    }
  }

  lemma NotInTheWay(objects: seq<VisibleObject>, i: nat, files: Files)
    requires SequenceConflictFree(objects) && i < |objects|
    requires forall t | t in files :: TitleStaged(objects[..i], t)
    ensures ValidFile(objects[i].path)
    ensures forall t | t in files :: !Conflict(t, objects[i].path)
  {
    hide ValidFile, Conflict;
    assert objects[i] in objects;
    forall t | t in files ensures !Conflict(t, objects[i].path) {
      var o :| o in objects[..i] && o.path == t;
      var k :| 0 <= k < i && objects[..i][k] == o;
      assert objects[k] == o;
    }
  }

  lemma StagedNext(
    before: seq<VisibleObject>, item: VisibleObject, after: seq<VisibleObject>, files: Files, bytes: Content)
    requires after == before + [item] && forall t | t in files :: TitleStaged(before, t)
    ensures forall t | t in files[item.path := bytes] :: TitleStaged(after, t)
  {
    assert item in after;
    forall t | t in files[item.path := bytes] ensures TitleStaged(after, t) {
      if t in files {
        var o :| o in before && o.path == t;
        assert o in after;
      }
    }
  }

  // ---- Removing from a tree ----

  lemma {:induction false} RemoveWalkable(node: Node, path: Name, depth: nat, limit: nat)
    requires Walkable(node, depth, limit) && Remove(node, path).Some?
    ensures Walkable(Remove(node, path).value, depth, limit)
    decreases |path|
  {
    if |path| > 1 {
      RemoveWalkable(node.entries[path[0]], path[1..], depth + 1, limit);
    }
  }

  /** A tree the publisher can be asked to walk. */
  ghost predicate Workable(root: Node) {
    root.Directory? && WellNamed(root) && Walkable(root, 0, MAX_PATH_SEGMENTS)
  }

  /** The loop that deletes the matching files one by one. */
  method RemoveAll(root: Node, paths: set<string>) returns (r: Node)
    requires Workable(root) && ValidTitles(TitledContents(root)) && paths <= TitledContents(root).Keys
    ensures Workable(r) && TitledContents(r) == TitledContents(root) - paths
  {
    hide Workable, TitledContents, Remove, ValidFile;
    r := root;
    var left := paths;
    while left != {}
      invariant left <= paths && Workable(r)
      invariant TitledContents(r) == TitledContents(root) - (paths - left)
      decreases left
    {
      TextStrictTotal();
      var path := Least(TextLess, left);
      RemoveOne(r, path);
      r := Remove(r, TitleName(path)).value;
      left := left - {path};
      assert paths - left == paths - (left + {path}) + {path};
    }
  }

  lemma RemoveOne(root: Node, path: string)
    requires Workable(root) && path in TitledContents(root) && ValidFile(path)
    ensures Remove(root, TitleName(path)).Some?
    ensures Workable(Remove(root, TitleName(path)).value)
    ensures TitledContents(Remove(root, TitleName(path)).value) == TitledContents(root) - {path}
  {
    hide TitledContents, Remove, ValidFile, Walkable, WellNamed;
    StagedRemove(root, path);
    RemoveWalkable(root, TitleName(path), 0, MAX_PATH_SEGMENTS);
  }

  // ---- Publishing the staged tree ----

  /** The blobs of a publication as the registry will hold them. */
  ghost function BlobMap(blobs: seq<Blob>): map<string, Content> {
    if blobs == [] then map[] else
      BlobMap(blobs[..|blobs| - 1])[blobs[|blobs| - 1].digest := blobs[|blobs| - 1].bytes]
  }

  lemma {:induction false} BlobMapIs(blobs: seq<Blob>, expected: map<string, Content>)
    requires forall b | b in blobs :: b.digest in expected && expected[b.digest] == b.bytes
    ensures forall d | d in BlobMap(blobs) :: d in expected && BlobMap(blobs)[d] == expected[d]
    ensures forall b | b in blobs :: b.digest in BlobMap(blobs)
  {
    if blobs != [] {
      var n := |blobs| - 1;
      assert blobs[n] in blobs && forall b | b in blobs[..n] :: b in blobs;
      assert forall b | b in blobs :: b in blobs[..n] || b == blobs[n];
      BlobMapIs(blobs[..n], expected);
    }
  }

  /** The publisher's answer for a workable tree, in terms of its files. */
  lemma TreePublication(sha: Digester, root: Node)
    requires Workable(root)
    ensures (|Walk(root, [])| <= MAX_PUBLICATION_FILES && PublishTree(sha, root).Ok?) <==>
      Publishable(sha, TitledContents(root))
    ensures Publishable(sha, TitledContents(root)) ==>
      PublishTree(sha, root).value.manifest == ManifestOf(sha, TitledContents(root))
  {
    hide WellNamed, Walkable, TitledContents, Publishable, ManifestOf, Walk, PublishTree;
    TreePublishes(sha, root, ManifestOf(sha, TitledContents(root)));
    if |Walk(root, [])| <= MAX_PUBLICATION_FILES && PublishTree(sha, root).Ok? {
      TreePublishes(sha, root, PublishTree(sha, root).value.manifest);
    }
  }

  lemma TreeMembers(sha: Digester, root: Node)
    requires Workable(root)
    ensures Members(ContentsAt(root, Walk(root, []))) == TitledContents(root).Values
  {
    hide WellNamed, Walkable, TitledContents, Walk, Split, Join, ContentAt, SourceAt;
    var walk, files := Walk(root, []), TitledContents(root);
    var contents := ContentsAt(root, walk);
    forall b | b in contents ensures b in files.Values {
      var i :| 0 <= i < |contents| && contents[i] == b;
      assert walk[i] in walk;
      TreeContent(root, walk[i]);
    }
    forall b | b in files.Values ensures b in contents {
      var t :| t in files && files[t] == b;
      TitleIsFile(root, t);
      WalkIsFiles(root, TitleName(t));
      TreeContent(root, TitleName(t));
      var i :| 0 <= i < |walk| && walk[i] == TitleName(t);
      assert contents[i] == b;
    }
  }

  /** Without collisions the blobs of the publication are the blobs of the files. */
  lemma PublicationBlobs(sha: Digester, universe: set<Content>, root: Node)
    requires Workable(root) && Publishable(sha, TitledContents(root)) && PublishTree(sha, root).Ok?
    requires PublishTree(sha, root).value.manifest == ManifestOf(sha, TitledContents(root))
    requires CollisionFree(sha, universe) && TitledContents(root).Values <= universe && EMPTY_CONFIG in universe
    ensures BlobMap(PublishTree(sha, root).value.blobs) == BlobsOf(sha, TitledContents(root))
  {
    hide WellNamed, Walkable, TitledContents, FitsInTurn, ContentsInOrder, Walk, ManifestOf, BlobMap, BlobsOf,
      PublishFiles, ContentsAt;
    var files := TitledContents(root);
    var publication := PublishTree(sha, root).value;
    TreeMembers(sha, root);
    PublicationResolves(sha, root, Walk(root, []));
    forall b | b in publication.blobs
      ensures b.digest in BlobsOf(sha, files) && BlobsOf(sha, files)[b.digest] == b.bytes
    {
      BlobExpected(sha, universe, files, b);
    }
    BlobMapIs(publication.blobs, BlobsOf(sha, files));
    forall d | d in BlobsOf(sha, files) ensures d in BlobMap(publication.blobs) {
      BlobPublished(sha, files, publication, d);
    }
  }

  lemma BlobExpected(sha: Digester, universe: set<Content>, files: Files, b: Blob)
    requires CollisionFree(sha, universe) && files.Values <= universe && EMPTY_CONFIG in universe && files != map[]
    requires sha(b.bytes) == b.digest && (b.bytes == EMPTY_CONFIG || b.bytes in files.Values)
    ensures b.digest in BlobsOf(sha, files) && BlobsOf(sha, files)[b.digest] == b.bytes
  {
    if b.bytes in files.Values {
      var t :| t in files && files[t] == b.bytes;
    }
    assert b.digest in StoredDigests(sha, files);
    BlobsHonest(sha, files, b.digest);
  }

  lemma BlobPublished(sha: Digester, files: Files, publication: Publication, d: string)
    requires files != map[] && d in BlobsOf(sha, files) && publication.manifest == ManifestOf(sha, files)
    requires forall layer | layer in publication.manifest.layers :: Listed(publication.blobs, layer.digest, layer.size)
    requires Listed(publication.blobs, publication.manifest.config.digest, publication.manifest.config.size)
    ensures exists b :: b in publication.blobs && b.digest == d
  {
    hide LayersOf, LayerFor, ContentWith;
    LayersOfMembers(sha, files);
    assert d in StoredDigests(sha, files);
    if t :| t in files && sha(files[t]) == d {
      LayerDigest(sha, t, files[t]);
      assert LayerFor(sha, t, files[t]) in publication.manifest.layers;
    }
  }

  // ---- One run ----

  /** The configured repository: its `autoindex.v1` reference and its blobs. */
  class Repository {
    var reference: Option<Manifest>
    var blobs: map<string, Content>

    ghost function State(): Registry
      reads this
    {
      Registry(reference, blobs)
    }

    constructor (reference: Option<Manifest>, blobs: map<string, Content>)
      ensures State() == Registry(reference, blobs)
    {
      this.reference, this.blobs := reference, blobs;
    }

    /** `execute`: every branch of a run, answering and leaving what `Step` says. */
    method Execute(
      sha: Digester, ghost universe: set<Content>, manifestBytes: Encoding, faults: Faults, command: Command)
      returns (answer: Result<nat, CliError>)
      requires Honest(sha, State()) && CollisionFree(sha, universe) && Within(universe, State(), command)
      modifies this
      ensures (answer, State()) == Step(sha, manifestBytes, old(State()), faults, command)
    {
      hide CheckCommand, LoadSnapshot, Materialized, Obstructed, Edited, BlobsOf, Publishable, ManifestOf, Staged,
        TitledContents, Projectable, Workable, ValidTitles, NoConflicts, WithinSize, CheckArguments;
      ghost var registry := State();
      var checked := CheckArguments(command);
      if checked.Err? {
        return Err(checked.error);
      }
      var loaded := LoadSnapshot(manifestBytes, Registry(reference, blobs), faults);
      if loaded.Err? {
        return Err(loaded.error);
      }
      var affected := CheckCommand(command, SnapshotPaths(loaded.value));
      if affected.Err? {
        return Err(affected.error);
      }
      if command.dryRun {
        return Ok(affected.value);
      }
      if faults.staging {
        return Err(TemporaryStorage);
      }
      var staged := StageSnapshot(sha, manifestBytes, Registry(reference, blobs), faults, loaded.value);
      if staged.Err? {
        return Err(staged.error);
      }
      MaterializedIsStored(sha, manifestBytes, registry, faults);
      ghost var files := FilesIn(registry);
      var edited := Edit(staged.value, command);
      if edited.Err? {
        return Err(edited.error);
      }
      StoredWithin(universe, registry);
      EditedWithin(universe, registry, files, command);
      var published := PublishEdited(sha, universe, edited.value);
      if published.Err? {
        return Err(PublicationFailure);
      }
      var (manifest, produced) := published.value;
      match faults.upload
      case FailsAfter(pushed) =>
        blobs := Pushed(blobs, map d | d in produced && d in pushed :: produced[d]);
        return Err(OrasFailure);
      case Uploads =>
        blobs := Pushed(blobs, produced);
        reference := manifest;
        return Ok(affected.value);
    }
  }

  method StageSnapshot(
    sha: Digester, manifestBytes: Encoding, registry: Registry, faults: Faults, snapshot: Option<Snapshot>)
    returns (r: Result<Node, CliError>)
    requires LoadSnapshot(manifestBytes, registry, faults) == Ok(snapshot)
    ensures r.Ok? ==> Staged(r.value)
    ensures r.Ok? ==> Materialized(sha, registry, faults, snapshot) == Ok(TitledContents(r.value))
    ensures r.Err? ==> Materialized(sha, registry, faults, snapshot) == Err(r.error)
  {
    hide Staged, TitledContents, StageObjects, LoadSnapshot, Projectable;
    match snapshot
    case None =>
      EmptyRootStaged();
      return Ok(EMPTY_ROOT);
    case Some(s) =>
      LoadedProjectable(manifestBytes, registry, faults, s);
      r := Materialize(sha, registry, faults, s.objects);
  }

  lemma LoadedProjectable(manifestBytes: Encoding, registry: Registry, faults: Faults, s: Snapshot)
    requires LoadSnapshot(manifestBytes, registry, faults) == Ok(Some(s))
    ensures Projectable(s.objects)
  {
    hide Project, CrudCompatible, ValidDescriptor;
    ProjectProjectable(registry.reference.value.layers);
  }

  lemma {:induction false} ProjectProjectable(layers: seq<Descriptor>)
    requires Project(layers).Ok?
    ensures Projectable(Project(layers).value)
  {
    hide ValidDescriptor, ValidRelative, Conflict;
    if layers != [] {
      var n := |layers| - 1;
      ProjectProjectable(layers[..n]);
      var objects, d := Project(layers[..n]).value, layers[n];
      if IsVisible(d) {
        NewObjectValid(Title(d), d.digest, d.mediaType, d.size);
        ProjectableInsert(objects, NewObject(Title(d), d.digest, d.mediaType, d.size).value);
      }
    }
  }

  /** Copying the source into the staged tree, or deleting from it. */
  method Edit(root: Node, command: Command) returns (r: Result<Node, CliError>)
    requires Staged(root) && CheckArguments(command).Ok?
    requires ValidTitles(TitledContents(root)) && NoConflicts(TitledContents(root))
    ensures r.Ok? <==> !Obstructed(TitledContents(root), command)
    ensures r.Ok? ==> Workable(r.value) && TitledContents(r.value) == Edited(TitledContents(root), command)
    ensures r.Err? ==> r.error == TemporaryStorage
  {
    hide TitledContents, ValidRelative, Conflict, NoConflicts, Write, Workable, Tidy, WellNamed, Walkable;
    StagedWalks(root);
    match command
    case Delete(path, _) =>
      var removed := RemoveAll(root, Matching(path, Titles(root)));
      return Ok(removed);
    case Create(source, path, _) =>
      StagedWrite(root, path, source.bytes);
      WrittenWalks(root, path, source.bytes);
      ObstructedIff(TitledContents(root), command);
      var written := Write(root, TitleName(path), source.bytes);
      if written.None? {
        return Err(TemporaryStorage);
      }
      return Ok(written.value);
    case Update(source, path, _) =>
      StagedWrite(root, path, source.bytes);
      WrittenWalks(root, path, source.bytes);
      ObstructedIff(TitledContents(root), command);
      var written := Write(root, TitleName(path), source.bytes);
      if written.None? {
        return Err(TemporaryStorage);
      }
      return Ok(written.value);
  }

  function Titles(root: Node): (titles: set<string>)
    ensures titles == TitledContents(root).Keys
  {
    TreeTitles(root)
  }

  lemma ObstructedIff(files: Files, command: Command)
    requires !command.Delete?
    ensures !Obstructed(files, command) <==> forall t | t in files :: t == command.path || !Conflict(t, command.path)
  {
    hide Conflict;
  }

  lemma StagedWalks(root: Node)
    requires Staged(root) && ValidTitles(TitledContents(root))
    ensures Workable(root)
  {
    hide TitledContents, Walkable, Tidy, WellNamed;
    StagedWalkable(root);
  }

  lemma WrittenWalks(root: Node, path: string, bytes: Content)
    requires Staged(root) && ValidTitles(TitledContents(root)) && ValidFile(path)
    ensures Write(root, TitleName(path), bytes).Some? ==> Workable(Write(root, TitleName(path), bytes).value)
  {
    hide TitledContents, Walkable, Tidy, WellNamed, ValidFile, Write, Workable;
    StagedWrite(root, path, bytes);
    if Write(root, TitleName(path), bytes).Some? {
      StagedWalks(Write(root, TitleName(path), bytes).value);
    }
  }

  /** Deleting the reference when nothing is left, or publishing the tree. */
  method PublishEdited(sha: Digester, ghost universe: set<Content>, root: Node)
    returns (r: Result<(Option<Manifest>, map<string, Content>), PublisherError>)
    requires Workable(root) && CollisionFree(sha, universe)
    requires TitledContents(root).Values <= universe && EMPTY_CONFIG in universe
    ensures var files := TitledContents(root);
      && (r.Ok? <==> files == map[] || Publishable(sha, files))
      && (r.Ok? ==> r.value.0 == ReferenceFor(sha, files) && r.value.1 == BlobsOf(sha, files))
  {
    hide TitledContents, Publishable, ManifestOf, BlobMap, BlobsOf, Walk, PublishTree, Walkable, WellNamed;
    if Titles(root) == {} {
      NothingStored(sha, TitledContents(root));
      return Ok((None, map[]));
    }
    TreePublication(sha, root);
    var publication := FromDirectory(sha, root);
    if publication.Err? {
      return Err(publication.error);
    }
    PublicationBlobs(sha, universe, root);
    var produced := CollectBlobs(publication.value.blobs);
    return Ok((Some(publication.value.manifest), produced));
  }

  lemma NothingStored(sha: Digester, files: Files)
    requires files.Keys == {}
    ensures files == map[] && BlobsOf(sha, files) == map[]
  {
  }

  method CollectBlobs(blobs: seq<Blob>) returns (stored: map<string, Content>)
    ensures stored == BlobMap(blobs)
  {
    stored := map[];
    var i := 0;
    while i < |blobs|
      invariant 0 <= i <= |blobs|
      invariant stored == BlobMap(blobs[..i])
    {
      assert blobs[..i + 1][..i] == blobs[..i];
      stored := stored[blobs[i].digest := blobs[i].bytes];
      i := i + 1;
    }
    assert blobs[..i] == blobs;
  }
}
