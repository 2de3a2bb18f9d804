/** Reading back what was published, and publishing again what can be read: the manifests that
    admit file-level editing are exactly the ones the publisher produces. */
module Image {
  import opened Wrappers
  import opened Text
  import opened Orders
  import opened Paths
  import opened Digests
  import opened Autoindex
  import opened Manifests
  import opened Projection
  import opened Publisher
  import opened Conservation
  import opened Cycle

  ghost predicate ValidTitles(files: Files) {
    forall t | t in files :: ValidFile(t)
  }

  ghost predicate NoConflicts(files: Files) {
    forall s, t {:trigger Conflict(s, t)} | s in files && t in files && s != t :: !Conflict(s, t)
  }

  ghost predicate WithinSize(files: Files) {
    forall t | t in files :: |files[t]| <= MAX_ARTIFACT_BYTES
  }

  function ObjectFor(sha: Digester, title: string, bytes: Content): VisibleObject {
    VisibleObject(title, sha(bytes), MediaTypeFor(title), |bytes|)
  }

  /** The index a reader builds from the manifest of the files. */
  function ObjectsFor(sha: Digester, files: Files): Objects {
    map t | t in files :: ObjectFor(sha, t, files[t])
  }

  // ---- Published layers are native, valid and increasing ----

  lemma TextTypesPrintable()
    ensures PrintableMediaType("text/html") && PrintableMediaType("text/plain; charset=utf-8")
  {
  }

  lemma PackageTypesPrintable()
    ensures PrintableMediaType("application/vnd.rpm")
    ensures PrintableMediaType("application/vnd.debian.binary-package")
  {
  }

  lemma DataTypesPrintable()
    ensures PrintableMediaType("application/json") && PrintableMediaType("application/xml")
    ensures PrintableMediaType("application/octet-stream")
  {
  }

  lemma CompressedTypesPrintable()
    ensures PrintableMediaType("application/zstd") && PrintableMediaType("application/gzip")
  {
  }

  lemma MediaTypePrintable(title: string)
    ensures PrintableMediaType(MediaTypeFor(title))
  {
    hide Lower, EndsWith, PrintableMediaType;
    TextTypesPrintable();
    PackageTypesPrintable();
    DataTypesPrintable();
    CompressedTypesPrintable();
  }

  lemma AnnotationNames()
    ensures TITLE_ANNOTATION != VISIBILITY_ANNOTATION
  {
    assert |TITLE_ANNOTATION| != |VISIBILITY_ANNOTATION|;
  }

  lemma LayerNative(sha: Digester, title: string, bytes: Content)
    ensures IsNativeLayer(LayerFor(sha, title, bytes))
    ensures |bytes| <= MAX_ARTIFACT_BYTES ==> ValidDescriptor(LayerFor(sha, title, bytes))
    ensures HasTitle(LayerFor(sha, title, bytes))
    ensures ObjectOf(LayerFor(sha, title, bytes)) == ObjectFor(sha, title, bytes)
  {
    hide MediaTypeFor, ValidDigest, PrintableMediaType;
    AnnotationNames();
    MediaTypePrintable(title);
    var a := map[TITLE_ANNOTATION := title, VISIBILITY_ANNOTATION := "true"];
    assert a.Keys == {TITLE_ANNOTATION, VISIBILITY_ANNOTATION};
    assert |a| == |a.Keys|;
  }

  lemma ConfigValid(sha: Digester)
    ensures ValidDescriptor(ConfigFor(sha))
    ensures ConfigFor(sha).digest == EMPTY_CONFIG_DIGEST
  {
    hide ValidDigest;
    assert PrintableMediaType(EMPTY_CONFIG_MEDIA_TYPE);
  }

  lemma PublishedCompatible(sha: Digester, files: Files)
    requires files != map[]
    ensures CrudCompatible(ManifestOf(sha, files))
  {
    hide LayerFor, IsNativeLayer, LayersOf, TextLess, ValidDescriptor;
    var m := ManifestOf(sha, files);
    ConfigValid(sha);
    LayersOfMembers(sha, files);
    forall d | d in m.layers ensures IsNativeLayer(d) {
      var t :| t in files && d == LayerFor(sha, t, files[t]);
      LayerNative(sha, t, files[t]);
    }
    forall i | 0 <= i < |m.layers| - 1 ensures TitlesOrderedAt(m.layers, i) {
      assert ByTitle(m.layers[i], m.layers[i + 1]);
    }
  }

  // ---- Projecting native layers ----

  lemma PublishedLayersProject(sha: Digester, files: Files)
    requires ValidTitles(files) && NoConflicts(files) && WithinSize(files)
    ensures Projected(LayersOf(sha, files)) && ConflictFree(ObjectsOf(LayersOf(sha, files)))
    ensures forall o :: o in ObjectsOf(LayersOf(sha, files)) <==> o in ObjectsFor(sha, files).Values
  {
    hide LayerFor, LayersOf, TextLess, LexLess, ValidDescriptor, ValidFile, Conflict, ObjectOf, ObjectFor, IsVisible;
    LayersOfMembers(sha, files);
    var layers := LayersOf(sha, files);
    forall d | d in layers ensures IsVisible(d) && HasTitle(d) && ValidDescriptor(d) && ValidFile(Title(d)) {
      var t :| t in files && d == LayerFor(sha, t, files[t]);
      LayerNative(sha, t, files[t]);
      LayerDigest(sha, t, files[t]);
    }
    var objects := ObjectsOf(layers);
    forall i, j | 0 <= i < |objects| && 0 <= j < |objects| && i != j
      ensures !Conflict(objects[i].path, objects[j].path)
    {
      LayerAt(sha, files, i);
      LayerAt(sha, files, j);
      DistinctTitles(sha, files, i, j);
    }
    forall o ensures o in objects <==> o in ObjectsFor(sha, files).Values {
      ObjectMember(sha, files, o);
    }
  }

  lemma LayerAt(sha: Digester, files: Files, i: nat)
    requires i < |LayersOf(sha, files)|
    ensures HasTitle(LayersOf(sha, files)[i]) && Title(LayersOf(sha, files)[i]) in files
    ensures var t := Title(LayersOf(sha, files)[i]);
      LayersOf(sha, files)[i] == LayerFor(sha, t, files[t])
        && ObjectOf(LayersOf(sha, files)[i]) == ObjectFor(sha, t, files[t])
    ensures ObjectOf(LayersOf(sha, files)[i]).path == Title(LayersOf(sha, files)[i])
  {
    hide LayerFor, LayersOf, IsNativeLayer, ValidDescriptor, ObjectFor;
    LayersOfMembers(sha, files);
    var d := LayersOf(sha, files)[i];
    assert d in LayersOf(sha, files);
    var t :| t in files && d == LayerFor(sha, t, files[t]);
    LayerDigest(sha, t, files[t]);
    LayerNative(sha, t, files[t]);
  }

  lemma DistinctTitles(sha: Digester, files: Files, i: nat, j: nat)
    requires i < |LayersOf(sha, files)| && j < |LayersOf(sha, files)| && i != j
    requires HasTitle(LayersOf(sha, files)[i]) && HasTitle(LayersOf(sha, files)[j])
    ensures Title(LayersOf(sha, files)[i]) != Title(LayersOf(sha, files)[j])
  {
    hide LayersOf, TextLess;
    LayersOfMembers(sha, files);
    TextStrictTotal();
    var layers := LayersOf(sha, files);
    assert i < j ==> ByTitle(layers[i], layers[j]);
    assert j < i ==> ByTitle(layers[j], layers[i]);
  }

  lemma ObjectMember(sha: Digester, files: Files, o: VisibleObject)
    requires forall d | d in LayersOf(sha, files) :: HasTitle(d)
    ensures o in ObjectsOf(LayersOf(sha, files)) <==> o in ObjectsFor(sha, files).Values
  {
    hide LayerFor, LayersOf, ObjectOf, ObjectFor, HasTitle;
    var layers := LayersOf(sha, files);
    var objects := ObjectsOf(layers);
    LayersOfMembers(sha, files);
    if o in objects {
      var i :| 0 <= i < |objects| && objects[i] == o;
      LayerAt(sha, files, i);
      assert Title(layers[i]) in ObjectsFor(sha, files);
    }
    if o in ObjectsFor(sha, files).Values {
      var t :| t in files && ObjectFor(sha, t, files[t]) == o;
      var d := LayerFor(sha, t, files[t]);
      assert d in layers;
      var i :| 0 <= i < |layers| && layers[i] == d;
      LayerNative(sha, t, files[t]);
      assert objects[i] == o;
    }
  }

  /** The reader accepts every published manifest, admits it to editing, and indexes exactly the
      published files. */
  lemma PublishedParses(sha: Digester, files: Files)
    requires files != map[] && ValidTitles(files) && NoConflicts(files) && WithinSize(files)
    ensures ParseManifest(ManifestOf(sha, files)) == Ok(Snapshot(ObjectsFor(sha, files), true))
    ensures Projectable(ObjectsFor(sha, files))
  {
    hide LayersOf, ValidTitles, NoConflicts, WithinSize, ObjectsFor, ValidDescriptor, CrudCompatible, Projected, Build,
      Project, ObjectsOf;
    PublishedCompatible(sha, files);
    ConfigValid(sha);
    PublishedLayersProject(sha, files);
    var layers := LayersOf(sha, files);
    LayersTitled(layers);
    ProjectIsBuild(layers);
    BuildSucceedsIff(ObjectsOf(layers));
    ObjectsHeld(sha, files, ObjectsOf(layers), Build(ObjectsOf(layers)).value);
    FilesProjectable(sha, files);
  }

  lemma ObjectsHeld(sha: Digester, files: Files, sequence: seq<VisibleObject>, objects: Objects)
    requires Holds(objects, sequence)
    requires forall o :: o in sequence <==> o in ObjectsFor(sha, files).Values
    ensures objects == ObjectsFor(sha, files)
  {
    hide MediaTypeFor;
    var expected := ObjectsFor(sha, files);
    forall p | p in objects ensures p in expected && expected[p] == objects[p] {
      assert objects[p] in sequence;
      var t :| t in expected && expected[t] == objects[p];
      assert t == p;
    }
    forall t | t in expected ensures t in objects {
      assert expected[t] in expected.Values;
    }
  }

  lemma FilesProjectable(sha: Digester, files: Files)
    requires ValidTitles(files) && NoConflicts(files)
    ensures Projectable(ObjectsFor(sha, files))
  {
    hide ValidFile, Conflict, MediaTypeFor;
  }

  // ---- From a readable manifest back to its files ----

  /** The files hold, for every layer, bytes of the layer's digest and size, and nothing else. */
  ghost predicate Stores(sha: Digester, m: Manifest, files: Files) {
    && (forall d | d in m.layers && HasTitle(d) :: StoredLayer(sha, d, files))
    && (forall t | t in files :: LayerTitled(m, t))
  }

  ghost predicate StoredLayer(sha: Digester, d: Descriptor, files: Files)
    requires HasTitle(d)
  {
    Title(d) in files && sha(files[Title(d)]) == d.digest && |files[Title(d)]| == d.size
  }

  ghost predicate LayerTitled(m: Manifest, t: string) {
    exists d :: d in m.layers && HasTitle(d) && Title(d) == t
  }

  ghost predicate Editable(m: Manifest) {
    ParseManifest(m).Ok? && ParseManifest(m).value.crudCompatible
  }

  lemma SameSizeSubset<T>(a: set<T>, b: set<T>)
    requires a <= b && |a| == |b|
    ensures a == b
  {
    assert |b - a| == |b| - |a|;
    assert b == a + (b - a);
  }

  lemma TwoEntries(m: map<string, string>, a: string, b: string)
    requires |m| == 2 && a in m && b in m && a != b
    ensures m == map[a := m[a], b := m[b]]
  {
    assert |{a, b}| == 2;
    assert |m.Keys| == 2;
    SameSizeSubset({a, b}, m.Keys);
  }

  lemma OneEntry(m: map<string, string>, a: string)
    requires |m| == 1 && a in m
    ensures m == map[a := m[a]]
  {
    assert |m.Keys| == 1;
    SameSizeSubset({a}, m.Keys);
  }

  lemma NativeLayerIsLayerFor(sha: Digester, d: Descriptor, bytes: Content)
    requires IsNativeLayer(d) && sha(bytes) == d.digest && |bytes| == d.size
    ensures d == LayerFor(sha, Title(d), bytes)
  {
    hide MediaTypeFor;
    AnnotationNames();
    TwoEntries(d.annotations, TITLE_ANNOTATION, VISIBILITY_ANNOTATION);
  }

  lemma {:induction false} AdjacentIncrease(layers: seq<Descriptor>, i: nat, j: nat)
    requires TitlesIncrease(layers) && i < j < |layers|
    ensures ByTitle(layers[i], layers[j])
    decreases j
  {
    hide TextLess;
    ByTitleOrder();
    assert TitlesOrderedAt(layers, j - 1);
    if i < j - 1 {
      AdjacentIncrease(layers, i, j - 1);
      assert ByTitle(layers[j - 1], layers[j]);
    }
  }

  lemma CompatibleMember(sha: Digester, m: Manifest, files: Files, d: Descriptor)
    requires (forall e | e in m.layers :: IsNativeLayer(e)) && Stores(sha, m, files)
    ensures d in m.layers <==> exists t | t in files :: d == LayerFor(sha, t, files[t])
  {
    hide LayerFor, MediaTypeFor;
    if d in m.layers {
      NativeLayerIsLayerFor(sha, d, files[Title(d)]);
    }
    if t :| t in files && d == LayerFor(sha, t, files[t]) {
      var e :| e in m.layers && HasTitle(e) && Title(e) == t;
      NativeLayerIsLayerFor(sha, e, files[t]);
    }
  }

  lemma CompatibleLayers(sha: Digester, m: Manifest, files: Files)
    requires (forall e | e in m.layers :: IsNativeLayer(e)) && TitlesIncrease(m.layers) && Stores(sha, m, files)
    ensures m.layers == LayersOf(sha, files)
  {
    hide LayerFor, LayersOf, TextLess, Stores, IsNativeLayer, TitlesIncrease, ByTitle;
    LayersOfMembers(sha, files);
    ByTitleOrder();
    forall i, j | 0 <= i < j < |m.layers| ensures ByTitle(m.layers[i], m.layers[j]) {
      AdjacentIncrease(m.layers, i, j);
    }
    forall d ensures d in m.layers <==> d in LayersOf(sha, files) {
      CompatibleMember(sha, m, files, d);
    }
    IncreasingUnique(ByTitle, m.layers, LayersOf(sha, files));
  }

  /** The fields a compatible manifest may have beside its layers are the publisher's. */
  lemma CompatibleEnvelope(sha: Digester, m: Manifest)
    requires Editable(m)
    ensures m == ManifestFor(sha, m.layers)
    ensures m.layers != [] && (forall e | e in m.layers :: IsNativeLayer(e)) && TitlesIncrease(m.layers)
    ensures Project(m.layers).Ok?
  {
    hide Project, ValidDescriptor, IsNativeLayer, TitlesIncrease;
    OneEntry(m.annotations, PUBLISHER_ANNOTATION);
    ConfigValid(sha);
  }

  lemma CompatibleManifest(sha: Digester, m: Manifest, files: Files)
    requires Editable(m) && Stores(sha, m, files)
    ensures m == ManifestOf(sha, files)
    ensures files != map[]
  {
    hide Editable, LayersOf, Project, IsNativeLayer, TitlesIncrease, Stores, ManifestFor, LayerFor, TextLess;
    CompatibleEnvelope(sha, m);
    CompatibleLayers(sha, m, files);
    LayersOfMembers(sha, files);
  }

  lemma LayerWithTitle(m: Manifest, files: Files, sha: Digester, t: string) returns (i: nat)
    requires Stores(sha, m, files) && t in files
    ensures i < |m.layers| && HasTitle(m.layers[i]) && Title(m.layers[i]) == t && |files[t]| == m.layers[i].size
  {
    var d :| d in m.layers && HasTitle(d) && Title(d) == t;
    i :| 0 <= i < |m.layers| && m.layers[i] == d;
  }

  lemma NativeVisible(layers: seq<Descriptor>)
    requires forall d | d in layers :: IsNativeLayer(d)
    ensures forall d | d in layers :: IsVisible(d)
  {
  }

  lemma NativeProjected(m: Manifest)
    requires Project(m.layers).Ok? && forall e | e in m.layers :: IsNativeLayer(e)
    ensures Projected(m.layers) && ConflictFree(ObjectsOf(m.layers))
  {
    hide Project, ValidDescriptor, ValidFile, Build, MediaTypeFor, Conflict, ObjectOf;
    NativeVisible(m.layers);
    ProjectedTitles(m.layers);
    ProjectIsBuild(m.layers);
    BuildSucceedsIff(ObjectsOf(m.layers));
  }

  lemma ProjectedAt(layers: seq<Descriptor>, i: nat)
    requires Projected(layers) && i < |layers|
    ensures HasTitle(layers[i]) && ValidFile(Title(layers[i])) && layers[i].size <= MAX_ARTIFACT_BYTES
    ensures ObjectsOf(layers)[i].path == Title(layers[i])
  {
    hide ValidFile, ValidDigest, PrintableMediaType;
    assert layers[i] in layers;
  }

  lemma EditableTitles(sha: Digester, m: Manifest, files: Files)
    requires Editable(m) && Stores(sha, m, files)
    ensures ValidTitles(files) && NoConflicts(files) && WithinSize(files)
  {
    hide Editable, ValidFile, Conflict, Project, Projected, IsNativeLayer, TitlesIncrease, Stores, ManifestFor,
      ObjectsOf;
    CompatibleEnvelope(sha, m);
    NativeProjected(m);
    forall t | t in files ensures ValidFile(t) && |files[t]| <= MAX_ARTIFACT_BYTES {
      var i := LayerWithTitle(m, files, sha, t);
      ProjectedAt(m.layers, i);
    }
    forall s, t | s in files && t in files && s != t ensures !Conflict(s, t) {
      var i := LayerWithTitle(m, files, sha, s);
      var j := LayerWithTitle(m, files, sha, t);
      ProjectedAt(m.layers, i);
      ProjectedAt(m.layers, j);
      LayersTitled(m.layers);
      assert |ObjectsOf(m.layers)| == |m.layers| by { ObjectsOfLength(m.layers); }
    }
  }

  lemma ObjectsOfLength(layers: seq<Descriptor>)
    requires forall d | d in layers :: HasTitle(d)
    ensures |ObjectsOf(layers)| == |layers|
  {
  }
}
