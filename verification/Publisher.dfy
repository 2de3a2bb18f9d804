/** The publisher: from a file tree, or chosen files of it, to a manifest and its blobs. */
module Publisher {
  import opened Wrappers
  import opened Text
  import opened Orders
  import opened Paths
  import opened Digests
  import opened Manifests
  import opened FileTrees

  const MAX_PUBLICATION_BYTES := 64 * 1024 * 1024
  const MAX_PUBLICATION_FILES := 10_000

  datatype PublisherError =
    InvalidRoot | Io | UnsupportedFileType | InvalidPath | DuplicatePath | LimitExceeded | EmptyPublication

  datatype Blob = Blob(digest: string, bytes: Content)

  datatype Publication = Publication(manifest: Manifest, blobs: seq<Blob>, paths: seq<string>)

  // ---- Collecting the files of a directory ----

  /** What the walk collects from a directory after `files`, or the first obstacle it meets. */
  ghost function Collected(node: Node, prefix: Name, files: seq<Name>, depth: nat): Result<seq<Name>, PublisherError>
    requires node.Directory?
    decreases node, 1, 0
  {
    if depth > MAX_PATH_SEGMENTS then Err(LimitExceeded)
    else CollectedNames(node, SortedNames(node.entries), prefix, files, depth)
  }

  ghost function CollectedNames(node: Node, names: seq<string>, prefix: Name, files: seq<Name>, depth: nat)
    : Result<seq<Name>, PublisherError>
    requires node.Directory? && forall n | n in names :: n in node.entries
    decreases node, 0, |names|
  {
    if names == [] then Ok(files)
    else
      assert names[0] in names;
      var child, path := node.entries[names[0]], prefix + [names[0]];
      var next :-
        if child.Other? then Err(UnsupportedFileType)
        else if child.Directory? then Collected(child, path, files, depth + 1)
        else if |files| + 1 > MAX_PUBLICATION_FILES then Err(LimitExceeded)
        else Ok(files + [path]);
      CollectedNames(node, names[1..], prefix, next, depth)
  }

  lemma CollectedStart(node: Node, prefix: Name, files: seq<Name>, depth: nat)
    requires node.Directory? && depth <= MAX_PATH_SEGMENTS
    ensures var names := SortedNames(node.entries);
      Collected(node, prefix, files, depth) == CollectedNames(node, names[0..], prefix, files, depth)
  {
    hide SortedNames;
    assert SortedNames(node.entries)[0..] == SortedNames(node.entries);
  }

  lemma CollectedStep(node: Node, names: seq<string>, i: nat, prefix: Name, files: seq<Name>, depth: nat)
    requires node.Directory? && i < |names| && forall n | n in names :: n in node.entries
    ensures names[i] in node.entries && (forall n | n in names[i..] :: n in node.entries)
      && forall n | n in names[i + 1..] :: n in node.entries
    ensures var child, path := node.entries[names[i]], prefix + [names[i]];
      var next := if child.Other? then Err(UnsupportedFileType)
        else if child.Directory? then Collected(child, path, files, depth + 1)
        else if |files| + 1 > MAX_PUBLICATION_FILES then Err(LimitExceeded) else Ok(files + [path]);
      CollectedNames(node, names[i..], prefix, files, depth) ==
        if next.Err? then next else CollectedNames(node, names[i + 1..], prefix, next.value, depth)
  {
    hide Collected;
    assert names[i] in names && names[i..][0] == names[i] && names[i..][1..] == names[i + 1..];
  }

  lemma CollectedEnd(node: Node, names: seq<string>, prefix: Name, files: seq<Name>, depth: nat)
    requires node.Directory? && forall n | n in names :: n in node.entries
    ensures CollectedNames(node, names[|names|..], prefix, files, depth) == Ok(files)
  {
  }

  /** `collect_files`: pushes the files below a directory in walk order, and stops at the first
      entry that is neither file nor directory, too deep, or one file too many. */
  method CollectFiles(node: Node, prefix: Name, files: seq<Name>, depth: nat)
    returns (r: Result<seq<Name>, PublisherError>)
    requires node.Directory? && |files| <= MAX_PUBLICATION_FILES
    ensures r.Ok? <==> Walkable(node, depth, 128) && |files + Walk(node, prefix)| <= 10_000
    ensures r.Ok? ==> r.value == files + Walk(node, prefix)
    ensures r == Collected(node, prefix, files, depth)
    decreases node
  {
    hide Walk, WalkNames, Increasing, FilePaths, SortedNames, Collected, CollectedNames;
    if depth > MAX_PATH_SEGMENTS {
      CollectedTooDeep(node, prefix, files, depth);
      return Err(LimitExceeded);
    }
    WalkStart(node, prefix);
    CollectedStart(node, prefix, files, depth);
    var names := SortedNames(node.entries);
    var collected := files;
    var i := 0;
    while i < |names|
      invariant 0 <= i <= |names| && |collected| <= MAX_PUBLICATION_FILES
      invariant forall k | 0 <= k < i :: Walkable(node.entries[names[k]], depth + 1, MAX_PATH_SEGMENTS)
      invariant files + Walk(node, prefix) == collected + WalkNames(node, names[i..], prefix)
      invariant Collected(node, prefix, files, depth) == CollectedNames(node, names[i..], prefix, collected, depth)
    {
      var name := names[i];
      assert name in names;
      var child := node.entries[name];
      WalkStep(node, names, i, prefix);
      CollectedStep(node, names, i, prefix, collected, depth);
      if child.Other? {
        return Err(UnsupportedFileType);
      } else if child.Directory? {
        var nested := CollectFiles(child, prefix + [name], collected, depth + 1);
        if nested.Err? {
          return nested;
        }
        collected := nested.value;
      } else {
        collected := collected + [prefix + [name]];
        if |collected| > MAX_PUBLICATION_FILES {
          return Err(LimitExceeded);
        }
      }
      i := i + 1;
    }
    assert forall n | n in node.entries :: n in names;
    CollectedEnd(node, names, prefix, collected, depth);
    return Ok(collected);
  }

  lemma CollectedTooDeep(node: Node, prefix: Name, files: seq<Name>, depth: nat)
    requires node.Directory? && depth > MAX_PATH_SEGMENTS
    ensures Collected(node, prefix, files, depth) == Err(LimitExceeded)
  {
  }

  lemma WalkStart(node: Node, prefix: Name)
    requires node.Directory?
    ensures var names := SortedNames(node.entries);
      Walk(node, prefix) == WalkNames(node, names[0..], prefix) && WalkNames(node, names[|names|..], prefix) == []
  {
    hide Increasing, FilePaths, SortedNames;
    var names := SortedNames(node.entries);
    assert names[0..] == names;
  }

  lemma WalkStep(node: Node, names: seq<string>, i: nat, prefix: Name)
    requires node.Directory? && i < |names| && forall n | n in names :: n in node.entries
    ensures names[i] in node.entries
    ensures forall n | n in names[i..] :: n in node.entries
    ensures forall n | n in names[i + 1..] :: n in node.entries
    ensures var child, path := node.entries[names[i]], prefix + [names[i]];
      && WalkNames(node, names[i..], prefix) == Walk(child, path) + WalkNames(node, names[i + 1..], prefix)
      && (child.File? ==> Walk(child, path) == [path])
      && (child.Other? ==> Walk(child, path) == [])
  {
    assert names[i] in names;
    assert names[i..][0] == names[i] && names[i..][1..] == names[i + 1..];
  }

  // ---- Drafting: the loop over the selected files ----

  function RelativeTitle(path: Name): Result<string, PublisherError> {
    if path == [] then Err(InvalidPath) else Ok(Join(path, '/'))
  }

  /** `validate_source_path` and the checks on what it finds. */
  function SourceAt(node: Node, path: Name): Result<Content, PublisherError>
    decreases |path|
  {
    if path == [] then
      if node.File? then Ok(node.bytes) else Err(UnsupportedFileType)
    else if node.Directory? && path[0] in node.entries then
      if node.entries[path[0]].Other? then Err(UnsupportedFileType) else SourceAt(node.entries[path[0]], path[1..])
    else Err(Io)
  }

  function LayerFor(sha: Digester, title: string, bytes: Content): Descriptor {
    Descriptor(MediaTypeFor(title), sha(bytes), |bytes|,
               map[TITLE_ANNOTATION := title, VISIBILITY_ANNOTATION := "true"], map[])
  }

  /** The variables of the loop in `from_files`. */
  datatype Draft = Draft(titles: set<string>, fileBlobs: map<string, Content>, layers: seq<Descriptor>, totalBytes: nat)

  const EMPTY_DRAFT := Draft({}, map[], [], 0)

  function AddFile(sha: Digester, root: Node, draft: Draft, path: Name): Result<Draft, PublisherError> {
    var title :- RelativeTitle(path);
    if !ValidRelative(title) then Err(InvalidPath)
    else if title in draft.titles then Err(DuplicatePath)
    else if |draft.titles| + 1 > MAX_PUBLICATION_FILES then Err(LimitExceeded)
    else
      var bytes :- SourceAt(root, path);
      if |bytes| > MAX_PUBLICATION_BYTES || draft.totalBytes + |bytes| > MAX_PUBLICATION_BYTES then Err(LimitExceeded)
      else Ok(Extended(sha, draft, title, bytes))
  }

  /** A content seen before is neither stored nor counted again. */
  function Extended(sha: Digester, draft: Draft, title: string, bytes: Content): Draft {
    var digest := sha(bytes);
    var known := digest in draft.fileBlobs;
    Draft(draft.titles + {title},
          if known then draft.fileBlobs else draft.fileBlobs[digest := bytes],
          draft.layers + [LayerFor(sha, title, bytes)],
          if known then draft.totalBytes else draft.totalBytes + |bytes|)
  }

  function DraftOf(sha: Digester, root: Node, paths: seq<Name>): Result<Draft, PublisherError> {
    if paths == [] then Ok(EMPTY_DRAFT) else
      var draft :- DraftOf(sha, root, paths[..|paths| - 1]);
      AddFile(sha, root, draft, paths[|paths| - 1])
  }

  predicate ByTitle(a: Descriptor, b: Descriptor) {
    HasTitle(a) && HasTitle(b) && TextLess(Title(a), Title(b))
  }

  predicate ByDigest(a: Blob, b: Blob) {
    TextLess(a.digest, b.digest)
  }

  function StoredBlobs(fileBlobs: map<string, Content>): (blobs: seq<Blob>)
    ensures |blobs| == |fileBlobs|
    ensures forall b | b in blobs :: b.digest in fileBlobs && fileBlobs[b.digest] == b.bytes
    ensures forall d | d in fileBlobs :: Blob(d, fileBlobs[d]) in blobs
  {
    TextStrictTotal();
    var digests := InOrder(TextLess, fileBlobs.Keys);
    assert forall i | 0 <= i < |digests| :: digests[i] in digests;
    var blobs := seq(|digests|, i requires 0 <= i < |digests| => Blob(digests[i], fileBlobs[digests[i]]));
    assert forall d | d in fileBlobs :: Blob(d, fileBlobs[d]) in blobs by {
      forall d | d in fileBlobs ensures Blob(d, fileBlobs[d]) in blobs {
        assert d in digests;
        var i :| 0 <= i < |digests| && digests[i] == d;
        assert blobs[i] == Blob(d, fileBlobs[d]);
      }
    }
    blobs
  }

  function ConfigFor(sha: Digester): Descriptor {
    Descriptor(EMPTY_CONFIG_MEDIA_TYPE, sha(EMPTY_CONFIG), |EMPTY_CONFIG|, map[], map[])
  }

  function ManifestFor(sha: Digester, layers: seq<Descriptor>): Manifest {
    Manifest(2, MANIFEST_MEDIA_TYPE, map[PUBLISHER_ANNOTATION := PUBLISHER_VERSION], ConfigFor(sha), layers, map[])
  }

  function TitleOf(d: Descriptor): string {
    if HasTitle(d) then Title(d) else ""
  }

  function TitlesOf(layers: seq<Descriptor>): seq<string> {
    seq(|layers|, i requires 0 <= i < |layers| => TitleOf(layers[i]))
  }

  function Finish(sha: Digester, draft: Draft): Result<Publication, PublisherError> {
    if draft.layers == [] then Err(EmptyPublication) else
      var layers := Sort(ByTitle, draft.layers);
      var config := Blob(sha(EMPTY_CONFIG), EMPTY_CONFIG);
      Ok(Publication(ManifestFor(sha, layers),
                     Sort(ByDigest, StoredBlobs(draft.fileBlobs) + [config]),
                     TitlesOf(layers)))
  }

  /** `Publication::from_files` as a function of the root and the selected paths. */
  function PublishFiles(sha: Digester, root: Node, paths: seq<Name>): Result<Publication, PublisherError> {
    if !root.Directory? then Err(InvalidRoot) else
      var draft :- DraftOf(sha, root, paths);
      Finish(sha, draft)
  }

  lemma {:induction false} DraftPrefixFails(sha: Digester, root: Node, paths: seq<Name>, i: nat)
    requires i <= |paths| && DraftOf(sha, root, paths[..i]).Err?
    ensures DraftOf(sha, root, paths) == DraftOf(sha, root, paths[..i])
    decreases |paths| - i
  {
    if i == |paths| {
      assert paths[..i] == paths;
    } else {
      assert paths[..i + 1][..i] == paths[..i];
      DraftPrefixFails(sha, root, paths, i + 1);
    }
  }

  method FromFiles(sha: Digester, root: Node, paths: seq<Name>) returns (r: Result<Publication, PublisherError>)
    ensures r == PublishFiles(sha, root, paths)
  {
    hide DraftOf, ValidRelative, SourceAt, LayerFor, Finish, AddFile;
    if !root.Directory? {
      return Err(InvalidRoot);
    }
    EmptyDraft(sha, root);
    var titles: set<string> := {};
    var fileBlobs: map<string, Content> := map[];
    var layers: seq<Descriptor> := [];
    var totalBytes: nat := 0;
    var i := 0;
    while i < |paths|
      invariant 0 <= i <= |paths|
      invariant DraftOf(sha, root, paths[..i]) == Ok(Draft(titles, fileBlobs, layers, totalBytes))
    {
      DraftStep(sha, root, paths, i);
      var step := ReadFile(sha, root, Draft(titles, fileBlobs, layers, totalBytes), paths[i]);
      if step.Err? {
        DraftPrefixFails(sha, root, paths, i + 1);
        return Err(step.error);
      }
      var (title, bytes) := step.value;
      titles := titles + {title};
      var digest := sha(bytes);
      if digest !in fileBlobs {
        totalBytes := totalBytes + |bytes|;
        fileBlobs := fileBlobs[digest := bytes];
      }
      layers := layers + [LayerFor(sha, title, bytes)];
      i := i + 1;
    }
    assert paths[..i] == paths;
    return Finish(sha, Draft(titles, fileBlobs, layers, totalBytes));
  }

  lemma EmptyDraft(sha: Digester, root: Node)
    ensures DraftOf(sha, root, []) == Ok(EMPTY_DRAFT)
  {
  }

  lemma DraftStep(sha: Digester, root: Node, paths: seq<Name>, i: nat)
    requires i < |paths| && DraftOf(sha, root, paths[..i]).Ok?
    ensures DraftOf(sha, root, paths[..i + 1]) == AddFile(sha, root, DraftOf(sha, root, paths[..i]).value, paths[i])
  {
    hide AddFile;
    assert paths[..i + 1][..i] == paths[..i];
  }

  /** The checks one file must pass before it is added. */
  method ReadFile(sha: Digester, root: Node, draft: Draft, path: Name)
    returns (r: Result<(string, Content), PublisherError>)
    ensures r.Ok? ==> AddFile(sha, root, draft, path) == Ok(Extended(sha, draft, r.value.0, r.value.1))
    ensures r.Err? ==> AddFile(sha, root, draft, path) == Err(r.error)
  {
    hide ValidRelative, Extended;
    var title :- RelativeTitle(path);
    if !ValidRelative(title) {
      return Err(InvalidPath);
    }
    if title in draft.titles {
      return Err(DuplicatePath);
    }
    if |draft.titles + {title}| > MAX_PUBLICATION_FILES {
      return Err(LimitExceeded);
    }
    var bytes :- SourceAt(root, path);
    if |bytes| > MAX_PUBLICATION_BYTES || draft.totalBytes + |bytes| > MAX_PUBLICATION_BYTES {
      return Err(LimitExceeded);
    }
    return Ok((title, bytes));
  }

  /** `Publication::from_directory`: every file below the root, in component order. */
  ghost function PublishTree(sha: Digester, root: Node): Result<Publication, PublisherError> {
    PublishFiles(sha, root, Walk(root, []))
  }

  /** The same with the obstacles of the walk, which come before those of its files. */
  ghost function PublishedFrom(sha: Digester, root: Node): Result<Publication, PublisherError> {
    if !root.Directory? then Err(InvalidRoot) else
      var paths :- Collected(root, [], [], 0);
      PublishFiles(sha, root, paths)
  }

  method FromDirectory(sha: Digester, root: Node) returns (r: Result<Publication, PublisherError>)
    ensures r.Ok? <==>
      && root.Directory? && Walkable(root, 0, 128) && |Walk(root, [])| <= 10_000
      && PublishTree(sha, root).Ok?
    ensures r.Ok? ==> r == PublishTree(sha, root)
    ensures r == PublishedFrom(sha, root)
  {
    hide Collected, PublishFiles, Walkable, Walk, Increasing, PathLess, Sort;
    if !root.Directory? {
      NotADirectory(sha, root);
      return Err(InvalidRoot);
    }
    var files := CollectFiles(root, [], [], 0);
    assert [] + Walk(root, []) == Walk(root, []);
    if files.Err? {
      return Err(files.error);
    }
    PathStrictTotal();
    WalkIncreases(root, []);
    SortOfIncreasing(PathLess, files.value);
    var sorted := Sort(PathLess, files.value);
    r := FromFiles(sha, root, sorted);
  }

  lemma NotADirectory(sha: Digester, root: Node)
    requires !root.Directory?
    ensures PublishTree(sha, root).Err?
  {
  }
}
