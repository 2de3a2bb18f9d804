/** The characterization of the editable manifests, and what the byte limit depends on. */
module Characterization {
  import opened Wrappers
  import opened Text
  import opened Orders
  import opened Paths
  import opened Digests
  import opened Autoindex
  import opened Manifests
  import opened FileTrees
  import opened TitledTrees
  import opened Publisher
  import opened Conservation
  import opened Cycle
  import opened Image

  const EMPTY_ROOT := Node.Directory(map[])

  lemma EmptyRootStaged()
    ensures Staged(EMPTY_ROOT) && TitledContents(EMPTY_ROOT) == map[]
  {
    assert FilePaths(EMPTY_ROOT) == {};
    assert TreeTitles(EMPTY_ROOT) == {};
  }

  /** Any files with valid titles that do not conflict can be laid out as a tree. */
  lemma {:induction false} LayOut(files: Files) returns (root: Node)
    requires ValidTitles(files) && NoConflicts(files)
    ensures Staged(root) && TitledContents(root) == files
    decreases |files|
  {
    hide ValidFile, Conflict, Staged, TitledContents, Write;
    if files == map[] {
      EmptyRootStaged();
      root := EMPTY_ROOT;
    } else {
      var t :| t in files;
      var rest := files - {t};
      assert |rest.Keys| == |files.Keys - {t}|;
      var smaller := LayOut(rest);
      StagedWrite(smaller, t, files[t]);
      root := Write(smaller, TitleName(t), files[t]).value;
      assert rest[t := files[t]] == files;
    }
  }

  /** A tidy tree whose files lie within the segment limit can be walked within the depth limit. */
  lemma {:induction false} TidyWalkable(node: Node, depth: nat, limit: nat)
    requires Tidy(node) && forall p | p in FilePaths(node) :: depth + |p| <= limit
    requires depth <= limit
    ensures Walkable(node, depth, limit)
  {
    if node.Directory? {
      forall k | k in node.entries ensures Walkable(node.entries[k], depth + 1, limit) {
        var child := node.entries[k];
        forall p | p in FilePaths(child) ensures depth + 1 + |p| <= limit {
          assert [k] + p in FilePaths(node);
        }
        var p := TidyHasFile(child);
        TidyWalkable(child, depth + 1, limit);
      }
    }
  }

  lemma StagedWalkable(root: Node)
    requires Staged(root) && ValidTitles(TitledContents(root))
    ensures Walkable(root, 0, MAX_PATH_SEGMENTS)
  {
    hide Split, Join, WellNamed, TitledContents, Walkable, Tidy;
    forall p | p in FilePaths(root) ensures |p| <= MAX_PATH_SEGMENTS {
      TitledRead(root, p);
      SegmentsBounded(NameTitle(p));
    }
    TidyWalkable(root, 0, MAX_PATH_SEGMENTS);
  }

  lemma SegmentsBounded(title: string)
    requires ValidFile(title)
    ensures |TitleName(title)| <= MAX_PATH_SEGMENTS
  {
    FileSegments(title);
  }

  lemma TreeTitlesValid(sha: Digester, root: Node)
    requires root.Directory? && WellNamed(root)
    ensures NoConflicts(TitledContents(root))
  {
    hide WellNamed, TitledContents, Conflict;
    forall s, t | s in TitledContents(root) && t in TitledContents(root) && s != t ensures !Conflict(s, t) {
      TitlesConflictFree(root, s, t);
    }
  }

  lemma PublishableWithinSize(sha: Digester, files: Files)
    requires Publishable(sha, files)
    ensures WithinSize(files)
  {
    hide CountedBytes, ValidFile, PathLess, Split, Join;
    forall t | t in files ensures |files[t]| <= MAX_ARTIFACT_BYTES {
      var names := NamesInOrder(files);
      PathStrictTotal();
      assert TitleName(t) in NamesOf(files);
      var i :| 0 <= i < |names| && names[i] == TitleName(t);
      TitleRoundTrip(t);
      assert ContentsInOrder(files)[i] == files[t];
    }
  }

  lemma ManifestStores(sha: Digester, files: Files)
    ensures Stores(sha, ManifestOf(sha, files), files)
  {
    hide LayerFor, LayersOf, ConfigFor, HasTitle, Title, Increasing, ByTitle, TextLess;
    LayersOfMembers(sha, files);
    var m := ManifestOf(sha, files);
    forall d | d in m.layers ensures HasTitle(d) && StoredLayer(sha, d, files) {
      var t :| t in files && d == LayerFor(sha, t, files[t]);
      LayerDigest(sha, t, files[t]);
    }
    forall t | t in files ensures LayerTitled(m, t) {
      LayerDigest(sha, t, files[t]);
      assert LayerFor(sha, t, files[t]) in m.layers;
    }
  }

  /** Some regular directory tree is published as this manifest. */
  ghost predicate Published(sha: Digester, m: Manifest) {
    exists root: Node :: WellNamed(root) && Publishes(sha, root, m)
  }

  /** Files within the publisher's limits are stored under this manifest. */
  ghost predicate StoredWithinLimits(sha: Digester, m: Manifest) {
    exists files: Files ::
      Stores(sha, m, files) && |files| <= 10_000 && FitsInTurn(sha, ContentsInOrder(files))
  }

  /** Whatever the publisher makes of a tree, the reader parses, admits to editing, and indexes as
      exactly the files of the tree. */
  lemma PublishedIsReadable(sha: Digester, root: Node, m: Manifest)
    requires WellNamed(root) && Publishes(sha, root, m)
    ensures ParseManifest(m) == Ok(Snapshot(ObjectsFor(sha, TitledContents(root)), true))
    ensures m == ManifestOf(sha, TitledContents(root)) && Publishable(sha, TitledContents(root))
  {
    hide WellNamed, TitledContents, ParseManifest, ObjectsFor, ManifestOf, FitsInTurn, ContentsInOrder, ValidFile, Walk,
      Walkable;
    var files := TitledContents(root);
    TreePublishes(sha, root, m);
    PublishableWithinSize(sha, files);
    TreeTitlesValid(sha, root);
    PublishedParses(sha, files);
  }

  /** The other way round: an editable manifest whose layers are stored within the limits is the
      publication of a tree of exactly the stored files. */
  lemma ReadableIsPublished(sha: Digester, m: Manifest, files: Files)
    requires Editable(m) && Stores(sha, m, files)
    requires |files| <= MAX_PUBLICATION_FILES && FitsInTurn(sha, ContentsInOrder(files))
    ensures exists root: Node :: WellNamed(root) && TitledContents(root) == files && Publishes(sha, root, m)
  {
    hide Editable, Stores, TitledContents, FitsInTurn, ContentsInOrder, ManifestOf, Publishes, ValidFile, Walkable,
      WellNamed, Tidy;
    CompatibleManifest(sha, m, files);
    EditableTitles(sha, m, files);
    var root := LayOut(files);
    StagedWalkable(root);
    TreePublishes(sha, root, m);
  }

  /** The manifests that admit file-level editing, with their files stored within the limits, are
      exactly the manifests the publisher produces. */
  lemma EditableIffPublished(sha: Digester, m: Manifest)
    ensures Published(sha, m) <==> Editable(m) && StoredWithinLimits(sha, m)
  {
    hide Stores, TitledContents, FitsInTurn, ContentsInOrder, ManifestOf, Publishes, ParseManifest, WellNamed,
      ObjectsFor;
    if Published(sha, m) {
      var root: Node :| WellNamed(root) && Publishes(sha, root, m);
      PublishedIsReadable(sha, root, m);
      ManifestStores(sha, TitledContents(root));
    }
    if Editable(m) && StoredWithinLimits(sha, m) {
      var files: Files :|
        Stores(sha, m, files) && |files| <= MAX_PUBLICATION_FILES && FitsInTurn(sha, ContentsInOrder(files));
      ReadableIsPublished(sha, m, files);
    }
  }

  /** Publishable files without conflicts are the files of some published tree. */
  lemma PublishableIsPublished(sha: Digester, files: Files)
    requires Publishable(sha, files) && NoConflicts(files)
    ensures Published(sha, ManifestOf(sha, files))
  {
    hide Publishable, NoConflicts, ManifestOf, Publishes, ValidFile, Walkable, WellNamed, TitledContents;
    PublishableTitled(sha, files);
    var root := LayOut(files);
    StagedWalkable(root);
    StagedRoot(root);
    TreePublishes(sha, root, ManifestOf(sha, files));
  }

  lemma PublishableTitled(sha: Digester, files: Files)
    requires Publishable(sha, files)
    ensures ValidTitles(files)
  {
  }

  lemma StagedRoot(root: Node)
    requires Staged(root)
    ensures root.Directory? && WellNamed(root)
  {
  }
}
