/** What a publication is made of and why one is refused, in terms of the tree, the paths and the bytes. */
module PublisherEffects {
  import opened Wrappers
  import opened Text
  import opened Orders
  import opened Paths
  import opened Digests
  import opened Manifests
  import opened FileTrees
  import opened Publisher
  import opened Conservation
  import opened Cycle
  import opened SelectionOrder

  // ---- Reading a selected path ----

  /** What stands at a path of the tree. */
  function At(node: Node, path: Name): Option<Node>
    decreases |path|
  {
    if path == [] then Some(node)
    else if node.Directory? && path[0] in node.entries then At(node.entries[path[0]], path[1..])
    else None
  }

  /** A special entry stands on the way to the path, or at it. */
  ghost predicate SpecialOn(node: Node, path: Name) {
    exists k :: 0 < k <= |path| && At(node, path[..k]) == Some(Other)
  }

  /** A path is read exactly when a regular file stands at it, and gives its bytes; special entries and
      directories are unsupported, and what is not there is an I/O error. */
  lemma {:induction false} SourceTells(node: Node, path: Name)
    ensures SourceAt(node, path) ==
      if SpecialOn(node, path) then Err(UnsupportedFileType)
      else match At(node, path)
        case None => Err(Io)
        case Some(File(bytes)) => Ok(bytes)
        case Some(_) => Err(UnsupportedFileType)
    decreases |path|
  {
    hide At;
    AtStart(node, path);
    if path != [] && node.Directory? && path[0] in node.entries {
      SourceTells(node.entries[path[0]], path[1..]);
      SpecialBelow(node, path);
    } else {
      forall k | 0 < k <= |path| ensures At(node, path[..k]) != Some(Other) {
        AtStart(node, path[..k]);
      }
    }
  }

  lemma AtStart(node: Node, path: Name)
    ensures At(node, path) ==
      if path == [] then Some(node)
      else if node.Directory? && path[0] in node.entries then At(node.entries[path[0]], path[1..])
      else None
  {
  }

  lemma SpecialBelow(node: Node, path: Name)
    requires path != [] && node.Directory? && path[0] in node.entries
    ensures var child := node.entries[path[0]];
      SpecialOn(node, path) <==> child.Other? || SpecialOn(child, path[1..])
  {
    hide At;
    var child := node.entries[path[0]];
    forall k | 0 < k <= |path| ensures At(node, path[..k]) == At(child, path[1..][..k - 1]) {
      AtStart(node, path[..k]);
      assert path[..k][1..] == path[1..][..k - 1];
    }
    AtStart(child, path[1..][..0]);
    if child.Other? {
      assert At(node, path[..1]) == Some(Other);
    }
    if k :| 0 < k <= |path[1..]| && At(child, path[1..][..k]) == Some(Other) {
      assert At(node, path[..k + 1]) == Some(Other);
    }
  }

  // ---- Why a selection is refused ----

  /** The first file that cannot be added decides the error, by the first check it fails. */
  lemma FirstFailure(sha: Digester, root: Node, paths: seq<Name>, i: nat)
    requires root.Directory? && i < |paths| && DraftOf(sha, root, paths[..i]).Ok?
    ensures var path, title, before := paths[i], Join(paths[i], '/'), ContentsAt(root, paths[..i]);
      if path == [] || !ValidRelative(title) then PublishFiles(sha, root, paths) == Err(InvalidPath)
      else if exists j :: 0 <= j < i && Join(paths[j], '/') == title then
        PublishFiles(sha, root, paths) == Err(DuplicatePath)
      else if i >= 10_000 then PublishFiles(sha, root, paths) == Err(LimitExceeded)
      else match SourceAt(root, path)
        case Err(e) => PublishFiles(sha, root, paths) == Err(e)
        case Ok(bytes) =>
          CountedBytes(sha, before) + |bytes| > 67_108_864 ==> PublishFiles(sha, root, paths) == Err(LimitExceeded)
  {
    hide DraftOf, ValidRelative, SourceAt, Join, CountedBytes, Finish, ReadablePaths, FitsInTurn, DigestsOf, Extended;
    DraftSucceedsIff(sha, root, paths[..i]);
    DraftStep(sha, root, paths, i);
    if DraftOf(sha, root, paths[..i + 1]).Err? {
      DraftPrefixFails(sha, root, paths, i + 1);
    }
    TitlesBefore(paths, i);
  }

  lemma TitlesBefore(paths: seq<Name>, i: nat)
    requires i < |paths|
    ensures Join(paths[i], '/') in TitleSet(paths[..i]) <==>
      exists j :: 0 <= j < i && Join(paths[j], '/') == Join(paths[i], '/')
  {
    hide Join;
    var before := paths[..i];
    if Join(paths[i], '/') in TitleSet(before) {
      var p :| p in before && Join(p, '/') == Join(paths[i], '/');
      var j :| 0 <= j < |before| && before[j] == p;
      assert paths[j] == p;
    }
    if j :| 0 <= j < i && Join(paths[j], '/') == Join(paths[i], '/') {
      assert before[j] == paths[j] && before[j] in before;
    }
  }

  /** No root, or no file at all. */
  lemma NothingToPublish(sha: Digester, root: Node, paths: seq<Name>)
    ensures !root.Directory? ==> PublishFiles(sha, root, paths) == Err(InvalidRoot)
    ensures root.Directory? ==> PublishFiles(sha, root, []) == Err(EmptyPublication)
  {
  }

  // ---- Why a tree is refused ----

  /** A special entry somewhere in the tree. */
  predicate HasSpecial(node: Node) {
    match node
    case File(_) => false
    case Other => true
    case Directory(entries) => exists k :: k in entries && HasSpecial(entries[k])
  }

  /** A directory more than 128 levels below the root. */
  predicate TooDeep(node: Node, depth: nat) {
    node.Directory? && (depth > 128 || exists k :: k in node.entries && TooDeep(node.entries[k], depth + 1))
  }

  lemma {:induction false} CollectedTells(node: Node, prefix: Name, files: seq<Name>, depth: nat)
    requires node.Directory?
    ensures match Collected(node, prefix, files, depth)
      case Ok(collected) => collected == files + Walk(node, prefix)
      case Err(UnsupportedFileType) => HasSpecial(node)
      case Err(LimitExceeded) => TooDeep(node, depth) || |files + Walk(node, prefix)| > 10_000
      case Err(_) => false
    decreases node, 1, 0
  {
    hide SortedNames;
    if depth <= 128 {
      CollectedNamesTell(node, SortedNames(node.entries), prefix, files, depth);
    }
  }

  lemma {:induction false} CollectedNamesTell(
    node: Node, names: seq<string>, prefix: Name, files: seq<Name>, depth: nat)
    requires node.Directory? && forall n | n in names :: n in node.entries
    ensures match CollectedNames(node, names, prefix, files, depth)
      case Ok(collected) => collected == files + WalkNames(node, names, prefix)
      case Err(UnsupportedFileType) => HasSpecial(node)
      case Err(LimitExceeded) => TooDeep(node, depth) || |files + WalkNames(node, names, prefix)| > 10_000
      case Err(_) => false
    decreases node, 0, |names|
  {
    hide Collected, Walk;
    if names != [] {
      assert names[0] in names;
      var child, path := node.entries[names[0]], prefix + [names[0]];
      WalkOne(node, names, prefix);
      if child.Directory? {
        CollectedTells(child, path, files, depth + 1);
        if Collected(child, path, files, depth + 1).Ok? {
          CollectedNamesTell(node, names[1..], prefix, Collected(child, path, files, depth + 1).value, depth);
        }
      } else if child.File? && |files| + 1 <= 10_000 {
        CollectedNamesTell(node, names[1..], prefix, files + [path], depth);
      }
    }
  }

  lemma WalkOne(node: Node, names: seq<string>, prefix: Name)
    requires node.Directory? && names != [] && forall n | n in names :: n in node.entries
    ensures names[0] in node.entries
    ensures WalkNames(node, names, prefix) ==
      Walk(node.entries[names[0]], prefix + [names[0]]) + WalkNames(node, names[1..], prefix)
    ensures node.entries[names[0]].File? ==> Walk(node.entries[names[0]], prefix + [names[0]]) == [prefix + [names[0]]]
  {
    assert names[0] in names;
  }

  /** Publishing a directory publishes its files in walk order, and a directory is refused before that
      only for not being one, for a special entry in it, for its depth or for more than 10,000 files. */
  lemma DirectoryTells(sha: Digester, root: Node)
    ensures match PublishedFrom(sha, root)
      case Ok(publication) => root.Directory? && PublishFiles(sha, root, Walk(root, [])) == Ok(publication)
      case Err(e) =>
        if !root.Directory? then e == InvalidRoot
        else
          || (e == UnsupportedFileType && HasSpecial(root))
          || (e == LimitExceeded && (TooDeep(root, 0) || |Walk(root, [])| > 10_000))
          || PublishFiles(sha, root, Walk(root, [])) == Err(e)
  {
    hide Collected, Walk, PublishFiles, HasSpecial, TooDeep;
    if root.Directory? {
      CollectedTells(root, [], [], 0);
      assert [] + Walk(root, []) == Walk(root, []);
    }
  }

  // ---- The order of what is published ----

  /** No later element comes before an earlier one. */
  ghost predicate Ordered<T>(less: (T, T) -> bool, s: seq<T>) {
    forall i, j | 0 <= i < j < |s| :: !less(s[j], s[i])
  }

  ghost predicate Unordered<T(!new)>(less: (T, T) -> bool) {
    forall x, y, z :: less(x, z) ==> less(x, y) || less(y, z)
  }

  lemma {:induction false} InsertOrdered<T(!new)>(less: (T, T) -> bool, x: T, s: seq<T>)
    requires Irreflexive(less) && Transitive(less) && Unordered(less) && Ordered(less, s)
    ensures Ordered(less, Insert(less, x, s))
  {
    if s != [] && less(s[0], x) {
      InsertOrdered(less, x, s[1..]);
      var tail := Insert(less, x, s[1..]);
      forall y | y in tail ensures !less(y, s[0]) {
        assert y in multiset(tail);
        if y != x {
          var i :| 1 <= i < |s| && s[i] == y;
        }
      }
      OrderedCons(less, s[0], tail);
    } else {
      forall y | y in s ensures !less(y, x) {
        var i :| 0 <= i < |s| && s[i] == y;
      }
      OrderedCons(less, x, s);
    }
  }

  lemma OrderedCons<T(!new)>(less: (T, T) -> bool, x: T, s: seq<T>)
    requires Ordered(less, s) && forall y | y in s :: !less(y, x)
    ensures Ordered(less, [x] + s)
  {
  }

  lemma {:induction false} SortOrdered<T(!new)>(less: (T, T) -> bool, s: seq<T>)
    requires Irreflexive(less) && Transitive(less) && Unordered(less)
    ensures Ordered(less, Sort(less, s))
  {
    if s != [] {
      SortOrdered(less, s[1..]);
      InsertOrdered(less, s[0], Sort(less, s[1..]));
    }
  }

  lemma DigestOrder()
    ensures Irreflexive(ByDigest) && Transitive(ByDigest) && Unordered(ByDigest)
  {
    hide TextLess;
    TextStrictTotal();
  }

  /** A publication lists its layers by title, each title once, and its blobs by digest: the config and
      each stored content, and nothing else. */
  lemma PublicationOrdered(sha: Digester, root: Node, paths: seq<Name>)
    requires PublishFiles(sha, root, paths).Ok?
    ensures var publication := PublishFiles(sha, root, paths).value;
      var layers, blobs := publication.manifest.layers, publication.blobs;
      && (forall d | d in layers :: HasTitle(d))
      && (forall i, j | 0 <= i < j < |layers| :: TextLess(TitleOf(layers[i]), TitleOf(layers[j])))
      && (forall i, j | 0 <= i < j < |blobs| :: !TextLess(blobs[j].digest, blobs[i].digest))
      && publication.paths == seq(|layers|, i requires 0 <= i < |layers| => TitleOf(layers[i]))
      && |layers| == |paths|
      && multiset(blobs) ==
        multiset(StoredBlobs(DraftOf(sha, root, paths).value.fileBlobs)) +
          multiset{Blob(sha(EMPTY_CONFIG), EMPTY_CONFIG)}
  {
    hide DraftOf, StoredBlobs, Sort, ByTitle, ByDigest, TextLess, TitlesOf;
    var draft, publication := DraftOf(sha, root, paths).value, PublishFiles(sha, root, paths).value;
    LayersOrdered(sha, root, paths);
    DigestOrder();
    SortOrdered(ByDigest, StoredBlobs(draft.fileBlobs) + [Blob(sha(EMPTY_CONFIG), EMPTY_CONFIG)]);
    BlobsOrdered(publication.blobs);
    TitlesListed(publication.manifest.layers);
  }

  lemma TitlesListed(layers: seq<Descriptor>)
    ensures TitlesOf(layers) == seq(|layers|, i requires 0 <= i < |layers| => TitleOf(layers[i]))
  {
  }

  lemma BlobsOrdered(blobs: seq<Blob>)
    requires Ordered(ByDigest, blobs)
    ensures forall i, j | 0 <= i < j < |blobs| :: !TextLess(blobs[j].digest, blobs[i].digest)
  {
    hide TextLess;
    forall i, j | 0 <= i < j < |blobs| ensures !TextLess(blobs[j].digest, blobs[i].digest) {
      assert !ByDigest(blobs[j], blobs[i]);
    }
  }

  lemma LayersOrdered(sha: Digester, root: Node, paths: seq<Name>)
    requires DraftOf(sha, root, paths).Ok?
    ensures var layers := Sort(ByTitle, DraftOf(sha, root, paths).value.layers);
      && |layers| == |paths|
      && (forall d | d in layers :: HasTitle(d))
      && (forall i, j | 0 <= i < j < |layers| :: TextLess(TitleOf(layers[i]), TitleOf(layers[j])))
  {
    hide DraftOf, Sort, TextLess, LayerFor, Join, ContentAt, SourceAt, ValidRelative, TitleSet;
    var drafted := DraftOf(sha, root, paths).value.layers;
    var layers := Sort(ByTitle, drafted);
    DraftLayers(sha, root, paths);
    DraftedComparable(sha, root, paths);
    ByTitleOrder();
    SortIncreasing(ByTitle, drafted);
    SameMembers(layers, drafted);
    forall d | d in layers ensures HasTitle(d) {
      var i :| 0 <= i < |drafted| && drafted[i] == d;
      LayerDigest(sha, Join(paths[i], '/'), ContentAt(root, paths[i]));
    }
    forall i, j | 0 <= i < j < |layers| ensures TextLess(TitleOf(layers[i]), TitleOf(layers[j])) {
      assert ByTitle(layers[i], layers[j]);
    }
  }
}
