/** Publishing and reading back: the editable manifests are exactly the publisher's image. */
module Cycle {
  import opened Wrappers
  import opened Text
  import opened Orders
  import opened Paths
  import opened Digests
  import opened Manifests
  import opened FileTrees
  import opened TitledTrees
  import opened Publisher
  import opened Conservation

  /** A finite map from titles to bytes: what an artifact stores. */
  type Files = map<string, Content>

  // ---- When the publisher's loop succeeds ----

  ghost function DigestsOf(sha: Digester, contents: seq<Content>): set<string> {
    set b | b in contents :: sha(b)
  }

  /** The bytes counted after a list of contents: each new digest once. */
  ghost function CountedBytes(sha: Digester, contents: seq<Content>): nat {
    if contents == [] then 0 else
      var init, last := contents[..|contents| - 1], contents[|contents| - 1];
      CountedBytes(sha, init) + if sha(last) in DigestsOf(sha, init) then 0 else |last|
  }

  /** Every file must fit on top of what was counted before it, even when its content is a
      repetition; so whether a set of files fits depends on their order. */
  ghost predicate FitsInTurn(sha: Digester, contents: seq<Content>) {
    forall i | 0 <= i < |contents| :: CountedBytes(sha, contents[..i]) + |contents[i]| <= 67_108_864
  }

  lemma DigestsSnoc(sha: Digester, init: seq<Content>, last: Content)
    ensures DigestsOf(sha, init + [last]) == DigestsOf(sha, init) + {sha(last)}
  {
    var all := init + [last];
    assert last in all;
    assert forall b | b in init :: b in all;
    assert forall b | b in all :: b in init || b == last;
  }

  lemma CountedSnoc(sha: Digester, init: seq<Content>, last: Content)
    ensures CountedBytes(sha, init + [last]) ==
      CountedBytes(sha, init) + if sha(last) in DigestsOf(sha, init) then 0 else |last|
  {
    hide DigestsOf;
    assert (init + [last])[..|init|] == init;
  }

  lemma FitsSnoc(sha: Digester, init: seq<Content>, last: Content)
    ensures FitsInTurn(sha, init + [last]) <==>
      FitsInTurn(sha, init) && CountedBytes(sha, init) + |last| <= MAX_PUBLICATION_BYTES
  {
    hide CountedBytes;
    var all := init + [last];
    assert forall i | 0 <= i < |init| :: all[..i] == init[..i] && all[i] == init[i];
    assert all[..|init|] == init && all[|init|] == last;
  }

  ghost predicate ReadablePaths(root: Node, paths: seq<Name>) {
    && |paths| <= 10_000
    && (forall p | p in paths :: p != [] && SourceAt(root, p).Ok?)
    && (forall i, j | 0 <= i < j < |paths| :: Join(paths[i], '/') != Join(paths[j], '/'))
  }

  ghost predicate DraftCounts(sha: Digester, root: Node, paths: seq<Name>, draft: Draft) {
    && draft.titles == TitleSet(paths) && |draft.titles| == |paths|
    && draft.totalBytes == CountedBytes(sha, ContentsAt(root, paths))
    && draft.fileBlobs.Keys == DigestsOf(sha, ContentsAt(root, paths))
  }

  lemma AddFileIff(sha: Digester, root: Node, init: seq<Name>, last: Name, draft: Draft)
    requires DraftCounts(sha, root, init, draft)
    ensures AddFile(sha, root, draft, last).Ok? <==>
      && last != [] && SourceAt(root, last).Ok? && ValidRelative(Join(last, '/'))
      && Join(last, '/') !in TitleSet(init) && |init| < MAX_PUBLICATION_FILES
      && CountedBytes(sha, ContentsAt(root, init)) + |ContentAt(root, last)| <= MAX_PUBLICATION_BYTES
    ensures AddFile(sha, root, draft, last).Ok? ==>
      DraftCounts(sha, root, init + [last], AddFile(sha, root, draft, last).value)
  {
    hide ValidRelative, SourceAt, Join, TitleSet, DigestsOf, CountedBytes, ContentsAt, LayerFor;
    TitlesSnoc(init, last);
    ContentsSnoc(root, init, last);
    DigestsSnoc(sha, ContentsAt(root, init), ContentAt(root, last));
    CountedSnoc(sha, ContentsAt(root, init), ContentAt(root, last));
  }

  /** The publishing loop succeeds exactly for at most 10,000 readable files with distinct valid
      titles that fit the byte limit in turn. */
  lemma {:induction false} DraftSucceedsIff(sha: Digester, root: Node, paths: seq<Name>)
    ensures DraftOf(sha, root, paths).Ok? <==>
      && ReadablePaths(root, paths) && (forall p | p in paths :: ValidRelative(Join(p, '/')))
      && FitsInTurn(sha, ContentsAt(root, paths))
    ensures DraftOf(sha, root, paths).Ok? ==> DraftCounts(sha, root, paths, DraftOf(sha, root, paths).value)
  {
    hide ValidRelative, SourceAt, Join, AddFile, FitsInTurn, CountedBytes, ContentsAt, DraftCounts, ContentAt,
      DigestsOf, ReadablePaths, TitleSet, DraftOf;
    DraftUnfold(sha, root, paths);
    if paths == [] {
      EmptyCounts(sha, root);
    } else {
      var n := |paths| - 1;
      var init, last := paths[..n], paths[n];
      assert paths == init + [last];
      DraftSucceedsIff(sha, root, init);
      ReadableSnoc(root, init, last);
      ContentsSnoc(root, init, last);
      FitsSnoc(sha, ContentsAt(root, init), ContentAt(root, last));
      ValidSnoc(init, last);
      if DraftOf(sha, root, init).Ok? {
        AddFileIff(sha, root, init, last, DraftOf(sha, root, init).value);
      }
    }
  }

  lemma DraftUnfold(sha: Digester, root: Node, paths: seq<Name>)
    ensures paths == [] ==> DraftOf(sha, root, paths) == Ok(EMPTY_DRAFT)
    ensures paths != [] ==>
      var before := DraftOf(sha, root, paths[..|paths| - 1]);
      DraftOf(sha, root, paths) == if before.Err? then before else AddFile(sha, root, before.value, paths[|paths| - 1])
  {
    hide AddFile;
  }

  lemma ReadableSnoc(root: Node, init: seq<Name>, last: Name)
    ensures ReadablePaths(root, init + [last]) <==>
      && ReadablePaths(root, init) && |init| < MAX_PUBLICATION_FILES
      && last != [] && SourceAt(root, last).Ok? && Join(last, '/') !in TitleSet(init)
  {
    hide SourceAt, Join;
    var paths := init + [last];
    assert last in paths && forall p | p in init :: p in paths;
    assert forall p | p in paths :: p in init || p == last;
    assert paths[|init|] == last && forall i | 0 <= i < |init| :: init[i] == paths[i];
    if Join(last, '/') in TitleSet(init) {
      var p :| p in init && Join(p, '/') == Join(last, '/');
      var i :| 0 <= i < |init| && init[i] == p;
      assert Join(paths[i], '/') == Join(paths[|init|], '/');
    }
  }

  lemma ValidSnoc(init: seq<Name>, last: Name)
    ensures (forall p | p in init + [last] :: ValidRelative(Join(p, '/'))) <==>
      (forall p | p in init :: ValidRelative(Join(p, '/'))) && ValidRelative(Join(last, '/'))
  {
    hide ValidRelative, Join;
    assert last in init + [last] && forall p | p in init :: p in init + [last];
  }

  lemma EmptyCounts(sha: Digester, root: Node)
    ensures DraftCounts(sha, root, [], EMPTY_DRAFT) && FitsInTurn(sha, ContentsAt(root, [])) && ReadablePaths(root, [])
  {
    assert ContentsAt(root, []) == [];
  }

  // ---- The manifest of a map of files ----

  ghost function LayersOf(sha: Digester, files: Files): seq<Descriptor> {
    TextStrictTotal();
    var titles := InOrder(TextLess, files.Keys);
    assert forall i | 0 <= i < |titles| :: titles[i] in titles;
    seq(|titles|, i requires 0 <= i < |titles| => LayerFor(sha, titles[i], files[titles[i]]))
  }

  ghost function ManifestOf(sha: Digester, files: Files): Manifest {
    ManifestFor(sha, LayersOf(sha, files))
  }

  /** The layers of a map: one for every title, in title order, and nothing else. */
  lemma LayersOfMembers(sha: Digester, files: Files)
    ensures forall d :: d in LayersOf(sha, files) <==> exists t | t in files :: d == LayerFor(sha, t, files[t])
    ensures Increasing(ByTitle, LayersOf(sha, files))
    ensures |LayersOf(sha, files)| == |files|
  {
    hide LayerFor, TextLess, ByTitle, StrictTotal;
    TextStrictTotal();
    LayersInOrder(sha, files);
    var layers := LayersOf(sha, files);
    forall d ensures d in layers <==> exists t | t in files :: d == LayerFor(sha, t, files[t]) {
      LayerIffTitle(sha, files, d);
    }
  }

  lemma LayerIffTitle(sha: Digester, files: Files, d: Descriptor)
    ensures d in LayersOf(sha, files) <==> exists t | t in files :: d == LayerFor(sha, t, files[t])
  {
    hide LayerFor, TextLess, StrictTotal;
    TextStrictTotal();
    var titles := InOrder(TextLess, files.Keys);
    var layers := LayersOf(sha, files);
    assert forall i | 0 <= i < |titles| :: titles[i] in titles;
    if d in layers {
      var i :| 0 <= i < |layers| && layers[i] == d;
      assert titles[i] in files;
    }
    if t :| t in files && d == LayerFor(sha, t, files[t]) {
      assert t in titles;
      var i :| 0 <= i < |titles| && titles[i] == t;
      assert layers[i] == d;
    }
  }

  lemma LayersInOrder(sha: Digester, files: Files)
    ensures Increasing(ByTitle, LayersOf(sha, files))
  {
    hide LayerFor, TextLess;
    TextStrictTotal();
    var titles := InOrder(TextLess, files.Keys);
    var layers := LayersOf(sha, files);
    assert forall i | 0 <= i < |titles| :: titles[i] in titles;
    forall i, j | 0 <= i < j < |layers| ensures ByTitle(layers[i], layers[j]) {
      LayerDigest(sha, titles[i], files[titles[i]]);
      LayerDigest(sha, titles[j], files[titles[j]]);
    }
  }

  lemma ByTitleOrder()
    ensures Irreflexive(ByTitle) && Transitive(ByTitle)
  {
    hide TextLess;
    TextStrictTotal();
  }

  // ---- A tree and its files in walk order ----

  ghost function NamesOf(files: Files): set<Name> {
    set t | t in files :: TitleName(t)
  }

  ghost function NamesInOrder(files: Files): seq<Name> {
    PathStrictTotal();
    InOrder(PathLess, NamesOf(files))
  }

  ghost function FileAt(files: Files, name: Name): Content {
    if NameTitle(name) in files then files[NameTitle(name)] else []
  }

  /** The contents in component order of their titles. */
  ghost function ContentsInOrder(files: Files): seq<Content> {
    var names := NamesInOrder(files);
    seq(|names|, i requires 0 <= i < |names| => FileAt(files, names[i]))
  }

  lemma {:induction false} SourceIsRead(node: Node, path: Name)
    requires path in FilePaths(node)
    ensures Read(node, path).Some? && SourceAt(node, path) == Ok(Read(node, path).value)
    decreases |path|
  {
    PathsRead(node, path);
    if path != [] {
      var k, p :| k in node.entries && p in FilePaths(node.entries[k]) && path == [k] + p;
      assert path[1..] == p;
      SourceIsRead(node.entries[path[0]], path[1..]);
    }
  }

  lemma WalkIsFiles(root: Node, p: Name)
    ensures p in Walk(root, []) <==> p in FilePaths(root)
  {
    WalkMeetsFiles(root, []);
    assert [] + p == p;
    if q :| q in FilePaths(root) && p == [] + q {
      assert p == q;
    }
  }

  lemma NamesAreFiles(root: Node, p: Name)
    requires root.Directory? && WellNamed(root)
    ensures p in NamesOf(TitledContents(root)) <==> p in FilePaths(root)
  {
    hide Split, Join, FilePaths, WellNamed, TitledContents;
    if p in FilePaths(root) {
      TitledRead(root, p);
    }
    if t :| t in TitledContents(root) && TitleName(t) == p {
      TitleIsFile(root, t);
    }
  }

  /** The walk of a tree is the component order of the titles of its files. */
  lemma TreeWalk(root: Node)
    requires root.Directory? && WellNamed(root)
    ensures Walk(root, []) == NamesInOrder(TitledContents(root))
  {
    hide WellNamed, TitledContents, NamesOf, FilePaths, PathLess;
    PathStrictTotal();
    WalkIncreases(root, []);
    forall p ensures p in Walk(root, []) <==> p in NamesInOrder(TitledContents(root)) {
      WalkIsFiles(root, p);
      NamesAreFiles(root, p);
    }
    IncreasingUnique(PathLess, Walk(root, []), NamesInOrder(TitledContents(root)));
  }

  lemma TreeContent(root: Node, p: Name)
    requires root.Directory? && WellNamed(root) && p in Walk(root, [])
    ensures p != [] && IsNames(p) && SourceAt(root, p).Ok?
    ensures ContentAt(root, p) == FileAt(TitledContents(root), p)
    ensures NameTitle(p) in TitledContents(root) && TitleName(NameTitle(p)) == p
  {
    hide Split, Join, WellNamed, TitledContents, SourceAt, Read, FilePaths;
    WalkIsFiles(root, p);
    RootFilesNonEmpty(root, p);
    FilesWellNamed(root, p);
    TitledRead(root, p);
    SourceIsRead(root, p);
  }

  lemma TreeContents(root: Node)
    requires root.Directory? && WellNamed(root)
    ensures ContentsAt(root, Walk(root, [])) == ContentsInOrder(TitledContents(root))
    ensures |Walk(root, [])| <= MAX_PUBLICATION_FILES ==> ReadablePaths(root, Walk(root, []))
  {
    hide WellNamed, TitledContents, SourceAt, FileAt, ContentAt, NamesInOrder, Walk, Split, Join, PathLess;
    TreeWalk(root);
    var walk := Walk(root, []);
    forall p | p in walk
      ensures p != [] && SourceAt(root, p).Ok? && ContentAt(root, p) == FileAt(TitledContents(root), p)
    {
      TreeContent(root, p);
    }
    forall i, j | 0 <= i < j < |walk| ensures Join(walk[i], '/') != Join(walk[j], '/') {
      WalkDistinct(root, i, j);
      assert walk[i] in walk && walk[j] in walk;
      TreeContent(root, walk[i]);
      TreeContent(root, walk[j]);
    }
  }

  lemma WalkDistinct(root: Node, i: nat, j: nat)
    requires i < j < |Walk(root, [])|
    ensures Walk(root, [])[i] != Walk(root, [])[j]
  {
    hide Walk, PathLess;
    WalkIncreases(root, []);
    PathStrictTotal();
    assert PathLess(Walk(root, [])[i], Walk(root, [])[j]);
  }

  // ---- Which trees publish, and as what ----

  /** The files of a map can be published: at least one, not too many, valid titles, within the
      byte limit when counted in component order. */
  ghost predicate Publishable(sha: Digester, files: Files) {
    && files != map[] && |files| <= 10_000
    && (forall t | t in files :: ValidFile(t))
    && FitsInTurn(sha, ContentsInOrder(files))
  }

  /** `from_directory` returns a publication with this manifest. */
  ghost predicate Publishes(sha: Digester, root: Node, m: Manifest) {
    && root.Directory? && Walkable(root, 0, 128) && |Walk(root, [])| <= 10_000
    && PublishTree(sha, root).Ok? && PublishTree(sha, root).value.manifest == m
  }

  lemma WalkLength(root: Node)
    requires root.Directory? && WellNamed(root)
    ensures |Walk(root, [])| == |TitledContents(root)|
  {
    hide WellNamed, TitledContents, Split, Join, Walk, PathLess, FilePaths;
    TreeWalk(root);
    var files := TitledContents(root);
    forall s, t | s in files.Keys && t in files.Keys && s != t ensures TitleName(s) != TitleName(t) {
      TitleIsFile(root, s);
      TitleIsFile(root, t);
    }
    ImageSize(files.Keys);
  }

  lemma {:induction false} ImageSize(titles: set<string>)
    requires forall s, t | s in titles && t in titles && s != t :: TitleName(s) != TitleName(t)
    ensures |set t | t in titles :: TitleName(t)| == |titles|
  {
    hide TitleName;
    if titles != {} {
      var x :| x in titles;
      var rest := titles - {x};
      ImageSize(rest);
      assert (set t | t in titles :: TitleName(t)) == (set t | t in rest :: TitleName(t)) + {TitleName(x)};
    }
  }

  lemma TitlesValid(root: Node)
    requires root.Directory? && WellNamed(root)
    ensures (forall p | p in Walk(root, []) :: ValidRelative(Join(p, '/')))
      <==> (forall t | t in TitledContents(root) :: ValidFile(t))
  {
    hide WellNamed, TitledContents, Split, Join, Walk, FilePaths, ValidRelative, ValidFile;
    forall p | p in Walk(root, [])
      ensures NameTitle(p) in TitledContents(root) && (ValidRelative(Join(p, '/')) <==> ValidFile(NameTitle(p)))
    {
      TreeContent(root, p);
      NameTitleIsNoDirectory(p);
    }
    forall t | t in TitledContents(root)
      ensures TitleName(t) in Walk(root, []) && (ValidRelative(Join(TitleName(t), '/')) <==> ValidFile(t))
    {
      TitleIsFile(root, t);
      WalkIsFiles(root, TitleName(t));
      NameTitleIsNoDirectory(TitleName(t));
    }
  }

  lemma DraftIsManifest(sha: Digester, root: Node)
    requires root.Directory? && WellNamed(root) && DraftOf(sha, root, Walk(root, [])).Ok?
    ensures Sort(ByTitle, DraftOf(sha, root, Walk(root, [])).value.layers) == LayersOf(sha, TitledContents(root))
  {
    hide WellNamed, TitledContents, Split, Walk, FilePaths, ValidRelative, SourceAt, LayerFor, LayersOf, DraftOf,
      ByTitle;
    var walk, files := Walk(root, []), TitledContents(root);
    var layers := DraftOf(sha, root, walk).value.layers;
    DraftLayers(sha, root, walk);
    ByTitleOrder();
    LayersOfMembers(sha, files);
    LayersComparable(sha, root);
    SortIncreasing(ByTitle, layers);
    SameMembers(Sort(ByTitle, layers), layers);
    forall d ensures d in layers <==> d in LayersOf(sha, files) {
      DraftMember(sha, root, layers, d);
    }
    IncreasingUnique(ByTitle, Sort(ByTitle, layers), LayersOf(sha, files));
  }

  /** Member by member, the drafted layers are the layers of the files. */
  lemma DraftMember(sha: Digester, root: Node, layers: seq<Descriptor>, d: Descriptor)
    requires root.Directory? && WellNamed(root) && |layers| == |Walk(root, [])|
    requires forall i | 0 <= i < |layers| ::
      layers[i] == LayerFor(sha, Join(Walk(root, [])[i], '/'), ContentAt(root, Walk(root, [])[i]))
    ensures d in layers <==> exists t | t in TitledContents(root) :: d == LayerFor(sha, t, TitledContents(root)[t])
  {
    hide WellNamed, TitledContents, Split, Join, Walk, FilePaths, SourceAt, LayerFor, ContentAt;
    var walk, files := Walk(root, []), TitledContents(root);
    if d in layers {
      var i :| 0 <= i < |layers| && layers[i] == d;
      assert walk[i] in walk;
      TreeContent(root, walk[i]);
    }
    if t :| t in files && d == LayerFor(sha, t, files[t]) {
      TitleIsFile(root, t);
      var p := TitleName(t);
      WalkIsFiles(root, p);
      TreeContent(root, p);
      var i :| 0 <= i < |walk| && walk[i] == p;
      assert layers[i] == d;
    }
  }

  lemma LayersComparable(sha: Digester, root: Node)
    requires root.Directory? && WellNamed(root) && DraftOf(sha, root, Walk(root, [])).Ok?
    ensures Comparable(ByTitle, DraftOf(sha, root, Walk(root, [])).value.layers)
  {
    hide WellNamed, Split, Join, Walk, FilePaths, ValidRelative, SourceAt, LayerFor, DraftOf, TextLess, ContentAt;
    var walk := Walk(root, []);
    DraftLayers(sha, root, walk);
    TreeContents(root);
    TextStrictTotal();
    var layers := DraftOf(sha, root, walk).value.layers;
    forall i, j | 0 <= i < |layers| && 0 <= j < |layers| && i != j
      ensures ByTitle(layers[i], layers[j]) || ByTitle(layers[j], layers[i])
    {
      LayerDigest(sha, Join(walk[i], '/'), ContentAt(root, walk[i]));
      LayerDigest(sha, Join(walk[j], '/'), ContentAt(root, walk[j]));
      assert i < j || j < i;
    }
  }

  /** A tree publishes exactly when its files are publishable, and then as their manifest. */
  lemma TreePublishes(sha: Digester, root: Node, m: Manifest)
    requires root.Directory? && WellNamed(root) && Walkable(root, 0, MAX_PATH_SEGMENTS)
    ensures Publishes(sha, root, m) <==>
      Publishable(sha, TitledContents(root)) && m == ManifestOf(sha, TitledContents(root))
  {
    hide WellNamed, TitledContents, Split, Join, Walk, FilePaths, ValidRelative, ValidFile, SourceAt, LayersOf, DraftOf,
      Walkable, FitsInTurn, ContentsInOrder, ContentsAt, ReadablePaths;
    var walk, files := Walk(root, []), TitledContents(root);
    WalkLength(root);
    TreeContents(root);
    TitlesValid(root);
    if |walk| <= MAX_PUBLICATION_FILES {
      DraftSucceedsIff(sha, root, walk);
      if DraftOf(sha, root, walk).Ok? {
        DraftLayers(sha, root, walk);
        DraftIsManifest(sha, root);
      }
    }
  }
}
