/** OCI manifests as structured values, and the reader's projection of a manifest to an index. */
module Manifests {
  import opened Wrappers
  import opened Text
  import opened Orders
  import opened Paths
  import opened Digests
  import opened Autoindex

  const MANIFEST_MEDIA_TYPE := "application/vnd.oci.image.manifest.v1+json"
  const EMPTY_CONFIG_MEDIA_TYPE := "application/vnd.oci.empty.v1+json"
  const TITLE_ANNOTATION := "org.opencontainers.image.title"
  const VISIBILITY_ANNOTATION := "io.github.djha-skin.github-oras-packages.autoindex.visible"
  const PUBLISHER_ANNOTATION := "io.github.djha-skin.github-oras-packages.autoindex.publisher"
  const PUBLISHER_VERSION := "v1"
  const MAX_ARTIFACT_BYTES := 64 * 1024 * 1024

  /** `extra` holds the raw JSON of fields the reader does not know. */
  datatype Descriptor = Descriptor(
    mediaType: string, digest: string, size: nat,
    annotations: map<string, string>, extra: map<string, string>)

  datatype Manifest = Manifest(
    schemaVersion: nat, mediaType: string, annotations: map<string, string>,
    config: Descriptor, layers: seq<Descriptor>, extra: map<string, string>)

  datatype OciError = NotFound | Unauthorized | Forbidden | Transport | InvalidLayout | InvalidDescriptor

  datatype Snapshot = Snapshot(objects: Objects, crudCompatible: bool)

  // ---- Descriptors ----

  function MediaTypeFor(title: string): string {
    var lower := Lower(title);
    if EndsWith(lower, ".html") || EndsWith(lower, ".htm") then "text/html"
    else if EndsWith(lower, ".json") then "application/json"
    else if EndsWith(lower, ".xml") then "application/xml"
    else if EndsWith(lower, ".txt") || EndsWith(lower, ".list") then "text/plain; charset=utf-8"
    else if EndsWith(lower, ".rpm") then "application/vnd.rpm"
    else if EndsWith(lower, ".deb") then "application/vnd.debian.binary-package"
    else if EndsWith(lower, ".zst") then "application/zstd"
    else if EndsWith(lower, ".gz") then "application/gzip"
    else "application/octet-stream"
  }

  predicate PrintableMediaType(mediaType: string) {
    && 0 < |mediaType| <= 256
    && mediaType[0] != ' ' && mediaType[|mediaType| - 1] != ' '
    && forall c | c in mediaType :: 0x20 <= c as int < 0x7f
  }

  predicate ValidDescriptor(d: Descriptor) {
    ValidDigest(d.digest) && d.size <= MAX_ARTIFACT_BYTES && PrintableMediaType(d.mediaType)
  }

  predicate IsVisible(d: Descriptor) {
    VISIBILITY_ANNOTATION in d.annotations && d.annotations[VISIBILITY_ANNOTATION] == "true"
  }

  predicate HasTitle(d: Descriptor) {
    TITLE_ANNOTATION in d.annotations
  }

  function Title(d: Descriptor): string
    requires HasTitle(d)
  {
    d.annotations[TITLE_ANNOTATION]
  }

  predicate IsNativeLayer(d: Descriptor) {
    && IsVisible(d) && d.extra == map[] && |d.annotations| == 2
    && HasTitle(d) && d.mediaType == MediaTypeFor(Title(d))
  }

  predicate TitlesOrderedAt(layers: seq<Descriptor>, i: nat)
    requires i + 1 < |layers|
  {
    HasTitle(layers[i]) && HasTitle(layers[i + 1]) && TextLess(Title(layers[i]), Title(layers[i + 1]))
  }

  /** The comparison of every two neighbouring layers. */
  predicate TitlesIncrease(layers: seq<Descriptor>) {
    forall i | 0 <= i < |layers| - 1 :: TitlesOrderedAt(layers, i)
  }

  /** The test that admits a manifest to file-level editing. */
  predicate CrudCompatible(m: Manifest) {
    && |m.annotations| == 1
    && PUBLISHER_ANNOTATION in m.annotations && m.annotations[PUBLISHER_ANNOTATION] == PUBLISHER_VERSION
    && m.extra == map[]
    && m.layers != []
    && (forall d | d in m.layers :: IsNativeLayer(d))
    && TitlesIncrease(m.layers)
    && m.config.extra == map[] && m.config.annotations == map[]
    && m.config.mediaType == EMPTY_CONFIG_MEDIA_TYPE
    && m.config.digest == EMPTY_CONFIG_DIGEST
    && m.config.size == 2
  }

  // ---- Projection ----

  function ObjectOf(d: Descriptor): VisibleObject
    requires HasTitle(d)
  {
    VisibleObject(Title(d), d.digest, d.mediaType, d.size)
  }

  /** What one layer adds: nothing when invisible, an object, or an error. A visible layer
      without a title is an error. */
  function ProjectLayer(objects: Objects, d: Descriptor): Result<Objects, OciError> {
    if !IsVisible(d) then Ok(objects)
    else if !HasTitle(d) then Err(InvalidLayout)
    else if !ValidDescriptor(d) then Err(InvalidDescriptor)
    else match NewObject(Title(d), d.digest, d.mediaType, d.size)
      case Err(_) => Err(InvalidLayout)
      case Ok(item) =>
        match InsertObject(objects, item)
        case None => Err(InvalidLayout)
        case Some(more) => Ok(more)
  }

  function Project(layers: seq<Descriptor>): Result<Objects, OciError> {
    if layers == [] then Ok(map[]) else
      match Project(layers[..|layers| - 1])
      case Err(e) => Err(e)
      case Ok(objects) => ProjectLayer(objects, layers[|layers| - 1])
  }

  /** `parse_autoindex_manifest` after JSON decoding. */
  function ParseManifest(m: Manifest): Result<Snapshot, OciError> {
    if m.schemaVersion != 2 || m.mediaType != MANIFEST_MEDIA_TYPE then Err(InvalidLayout)
    else if !ValidDescriptor(m.config) then Err(InvalidDescriptor)
    else
      match Project(m.layers)
      case Err(e) => Err(e)
      case Ok(objects) => Ok(Snapshot(objects, CrudCompatible(m)))
  }

  lemma {:induction false} ProjectPrefixFails(layers: seq<Descriptor>, i: nat)
    requires i <= |layers| && Project(layers[..i]).Err?
    ensures Project(layers) == Project(layers[..i])
    decreases |layers| - i
  {
    if i == |layers| {
      assert layers[..i] == layers;
    } else {
      assert layers[..i + 1][..i] == layers[..i];
      ProjectPrefixFails(layers, i + 1);
    }
  }

  /** The loop over the layers, inserting into a fresh index. */
  method ProjectLayers(layers: seq<Descriptor>) returns (r: Result<Objects, OciError>)
    ensures r == Project(layers)
    ensures r.Ok? ==> Projectable(r.value)
  {
    hide ValidDescriptor, ValidRelative, Conflict, Projectable;
    var index := new Index();
    EmptyProjectable();
    var i := 0;
    while i < |layers|
      invariant 0 <= i <= |layers|
      invariant Project(layers[..i]) == Ok(index.objects)
      invariant Projectable(index.objects)
    {
      var d := layers[i];
      assert layers[..i + 1][..i] == layers[..i];
      if IsVisible(d) {
        if !HasTitle(d) {
          ProjectPrefixFails(layers, i + 1);
          return Err(InvalidLayout);
        }
        if !ValidDescriptor(d) {
          ProjectPrefixFails(layers, i + 1);
          return Err(InvalidDescriptor);
        }
        var created := NewObject(Title(d), d.digest, d.mediaType, d.size);
        if created.Err? {
          ProjectPrefixFails(layers, i + 1);
          return Err(InvalidLayout);
        }
        NewObjectValid(Title(d), d.digest, d.mediaType, d.size);
        InsertAgrees(index.objects, created.value);
        var inserted := index.Insert(created.value);
        if inserted.Err? {
          ProjectPrefixFails(layers, i + 1);
          return Err(InvalidLayout);
        }
      }
      i := i + 1;
    }
    assert layers[..i] == layers;
    return Ok(index.objects);
  }

  lemma EmptyProjectable()
    ensures Projectable(map[])
  {
  }

  lemma NewObjectValid(path: string, digest: string, mediaType: string, size: nat)
    ensures NewObject(path, digest, mediaType, size).Ok? <==> ValidFile(path)
    ensures ValidFile(path) ==>
      NewObject(path, digest, mediaType, size) == Ok(VisibleObject(path, digest, mediaType, size))
  {
  }

  lemma InsertAgrees(objects: Objects, item: VisibleObject)
    ensures InsertObject(objects, item).None? <==>
      item.path in objects || exists p | p in objects :: Conflict(p, item.path)
  {
  }
}
