/** Why a manifest is refused, what a descriptor must be, and the media types of titles. */
module ReaderEffects {
  import opened Wrappers
  import opened Text
  import opened Paths
  import opened Autoindex
  import opened Manifests
  import opened Projection

  // ---- Errors ----

  /** The layer stands in the way of an earlier visible one, or repeats its title. */
  ghost predicate Collides(layers: seq<Descriptor>, title: string) {
    exists e :: e in layers && IsVisible(e) && HasTitle(e) && Conflict(Title(e), title)
  }

  /** The envelope and the config are checked before any layer. */
  lemma EnvelopeErrors(m: Manifest)
    ensures m.schemaVersion != 2 || m.mediaType != "application/vnd.oci.image.manifest.v1+json" ==>
      ParseManifest(m) == Err(InvalidLayout)
    ensures m.schemaVersion == 2 && m.mediaType == MANIFEST_MEDIA_TYPE && !ValidDescriptor(m.config) ==>
      ParseManifest(m) == Err(InvalidDescriptor)
  {
    hide Project, ValidDescriptor, CrudCompatible;
  }

  /** The first visible layer that cannot be listed decides the error, by the first check it fails. */
  lemma FirstBadLayer(m: Manifest, i: nat)
    requires m.schemaVersion == 2 && m.mediaType == MANIFEST_MEDIA_TYPE && ValidDescriptor(m.config)
    requires i < |m.layers| && Project(m.layers[..i]).Ok? && IsVisible(m.layers[i])
    ensures var d := m.layers[i];
      if !HasTitle(d) then ParseManifest(m) == Err(InvalidLayout)
      else if !ValidDescriptor(d) then ParseManifest(m) == Err(InvalidDescriptor)
      else if !ValidFile(Title(d)) || Collides(m.layers[..i], Title(d)) then ParseManifest(m) == Err(InvalidLayout)
      else Project(m.layers[..i + 1]).Ok?
  {
    hide Project, ValidDescriptor, ValidFile, IsVisible, CrudCompatible, ProjectLayer, Collides;
    LayerProjects(m.layers, i);
    LayerOutcome(m.layers[..i], m.layers[i]);
    if Project(m.layers[..i + 1]).Err? {
      ProjectPrefixFails(m.layers, i + 1);
    }
  }

  lemma LayerProjects(layers: seq<Descriptor>, i: nat)
    requires i < |layers| && Project(layers[..i]).Ok?
    ensures Project(layers[..i + 1]) == ProjectLayer(Project(layers[..i]).value, layers[i])
  {
    assert layers[..i + 1] == layers[..i] + [layers[i]];
    ProjectSnoc(layers[..i], layers[i]);
  }

  lemma LayerOutcome(before: seq<Descriptor>, d: Descriptor)
    requires Project(before).Ok? && IsVisible(d)
    ensures var r := ProjectLayer(Project(before).value, d);
      if !HasTitle(d) then r == Err(InvalidLayout)
      else if !ValidDescriptor(d) then r == Err(InvalidDescriptor)
      else if !ValidFile(Title(d)) || Collides(before, Title(d)) then r == Err(InvalidLayout)
      else r.Ok?
  {
    hide Project, ValidDescriptor, ValidFile, IsVisible, Collides, Conflict, NewObject;
    if HasTitle(d) {
      NewObjectValid(Title(d), d.digest, d.mediaType, d.size);
      IndexedTitles(before, Title(d));
    }
  }

  /** The paths in the index are the titles of the visible layers. */
  lemma IndexedTitles(layers: seq<Descriptor>, title: string)
    requires Project(layers).Ok?
    ensures Collides(layers, title) <==> exists p :: p in Project(layers).value && Conflict(p, title)
  {
    hide Project, ValidDescriptor, ValidFile, IsVisible, Conflict, VisibleOf, Projected, ObjectsOf, Build, ConflictFree;
    var visible := VisibleOf(layers);
    ProjectVisible(layers);
    VisibleMembers(layers);
    ProjectedTitles(visible);
    LayersTitled(visible);
    ProjectIsBuild(visible);
    BuildSucceedsIff(ObjectsOf(visible));
    TitledObjects(visible, Project(layers).value);
    if e :| e in layers && IsVisible(e) && HasTitle(e) && Conflict(Title(e), title) {
      assert e in visible;
    }
  }

  lemma TitledObjects(layers: seq<Descriptor>, objects: Objects)
    requires (forall d | d in layers :: HasTitle(d)) && Holds(objects, ObjectsOf(layers))
    ensures forall p :: p in objects <==> exists d :: d in layers && Title(d) == p
  {
    hide HasTitle;
    var sequence := ObjectsOf(layers);
    forall d | d in layers ensures Title(d) in objects {
      var i :| 0 <= i < |layers| && layers[i] == d;
      assert sequence[i] in sequence && sequence[i].path == Title(d);
    }
    forall p | p in objects ensures exists d :: d in layers && Title(d) == p {
      var i :| 0 <= i < |sequence| && sequence[i] == objects[p];
      assert layers[i] in layers;
    }
  }

  // ---- Descriptors ----

  /** A descriptor has a SHA-256 digest in lower-case hexadecimal, at most 64 MiB and a media type of 1
      to 256 printable ASCII characters without blanks at its ends. */
  lemma DescriptorTells(d: Descriptor)
    ensures ValidDescriptor(d) <==>
      && |d.digest| == 71 && d.digest[..7] == "sha256:"
      && (forall i | 7 <= i < 71 :: '0' <= d.digest[i] <= '9' || 'a' <= d.digest[i] <= 'f')
      && d.size <= 67_108_864
      && 0 < |d.mediaType| <= 256 && d.mediaType[0] != ' ' && d.mediaType[|d.mediaType| - 1] != ' '
      && forall c | c in d.mediaType :: ' ' <= c <= '~'
  {
    if |d.digest| == 71 && d.digest[..7] == "sha256:" {
      var hex := d.digest[7..];
      assert forall i | 7 <= i < 71 :: d.digest[i] == hex[i - 7];
      assert forall i | 0 <= i < 64 :: hex[i] == d.digest[i + 7] && hex[i] in hex;
    }
  }

  // ---- Media types ----

  lemma LowerConcat(a: string, b: string)
    ensures Lower(a + b) == Lower(a) + Lower(b)
  {
  }

  /** How a lower-case extension of four or five characters is told from the others. */
  lemma ExtensionTells(stem: string, extension: string)
    requires 3 <= |extension| <= 5 && Lower(extension) == extension && extension[0] == '.'
    requires forall i | 0 < i < |extension| :: extension[i] != '.'
    ensures var lower := Lower(stem + extension);
      && (EndsWith(lower, ".html") <==> extension == ".html") && (EndsWith(lower, ".htm") <==> extension == ".htm")
      && (EndsWith(lower, ".json") <==> extension == ".json") && (EndsWith(lower, ".xml") <==> extension == ".xml")
      && (EndsWith(lower, ".txt") <==> extension == ".txt") && (EndsWith(lower, ".list") <==> extension == ".list")
      && (EndsWith(lower, ".rpm") <==> extension == ".rpm") && (EndsWith(lower, ".deb") <==> extension == ".deb")
      && (EndsWith(lower, ".zst") <==> extension == ".zst") && (EndsWith(lower, ".gz") <==> extension == ".gz")
  {
    hide Lower, EndsWith;
    LowerConcat(stem, extension);
    SuffixIsExtension(Lower(stem), extension, ".html");
    SuffixIsExtension(Lower(stem), extension, ".htm");
    SuffixIsExtension(Lower(stem), extension, ".json");
    SuffixIsExtension(Lower(stem), extension, ".xml");
    SuffixIsExtension(Lower(stem), extension, ".txt");
    SuffixIsExtension(Lower(stem), extension, ".list");
    SuffixIsExtension(Lower(stem), extension, ".rpm");
    SuffixIsExtension(Lower(stem), extension, ".deb");
    SuffixIsExtension(Lower(stem), extension, ".zst");
    SuffixIsExtension(Lower(stem), extension, ".gz");
  }

  lemma SuffixIsExtension(stem: string, extension: string, suffix: string)
    requires extension != "" && extension[0] == '.' && forall i | 0 < i < |extension| :: extension[i] != '.'
    requires suffix != "" && suffix[0] == '.' && forall i | 0 < i < |suffix| :: suffix[i] != '.'
    ensures EndsWith(stem + extension, suffix) <==> extension == suffix
  {
    var s := stem + extension;
    if EndsWith(s, suffix) {
      var at := |s| - |suffix|;
      assert s[at] == suffix[0] && s[|stem|] == extension[0];
      assert forall i | 0 < i < |suffix| :: s[at + i] == suffix[i];
      assert forall i | 0 < i < |extension| :: s[|stem| + i] == extension[i];
      assert forall i | at < i < |s| :: s[i] == suffix[i - at];
      assert forall i | |stem| < i < |s| :: s[i] == extension[i - |stem|];
      assert s[at..] == suffix && s[|stem|..] == extension;
    }
    if extension == suffix {
      assert s[|s| - |suffix|..] == extension;
    }
  }

  lemma LowerSame(s: string)
    requires forall i | 0 <= i < |s| :: s[i] == '.' || 'a' <= s[i] <= 'z'
    ensures Lower(s) == s
  {
  }

  /** The extensions with a media type of their own. */
  predicate Known(extension: string) {
    extension in {".html", ".htm", ".json", ".xml", ".txt", ".list", ".rpm", ".deb", ".zst", ".gz"}
  }

  lemma KnownShape(extension: string)
    requires Known(extension)
    ensures 3 <= |extension| <= 5 && extension[0] == '.' && Lower(extension) == extension
    ensures forall i | 0 < i < |extension| :: extension[i] != '.'
  {
    LowerSame(extension);
  }

  lemma KnownMediaType(stem: string, extension: string)
    requires Known(extension)
    ensures MediaTypeFor(stem + extension) ==
      if extension == ".html" || extension == ".htm" then "text/html"
      else if extension == ".json" then "application/json"
      else if extension == ".xml" then "application/xml"
      else if extension == ".txt" || extension == ".list" then "text/plain; charset=utf-8"
      else if extension == ".rpm" then "application/vnd.rpm"
      else if extension == ".deb" then "application/vnd.debian.binary-package"
      else if extension == ".zst" then "application/zstd"
      else "application/gzip"
  {
    KnownShape(extension);
    ExtensionTells(stem, extension);
    hide Lower, EndsWith;
  }

  lemma NoExtension(stem: string)
    requires '.' !in stem
    ensures MediaTypeFor(stem) == "application/octet-stream"
  {
    hide EndsWith;
    forall suffix: string | suffix != "" && suffix[0] == '.' ensures !EndsWith(Lower(stem), suffix) {
      NoSuffix(stem, suffix);
    }
  }

  lemma NoSuffix(stem: string, suffix: string)
    requires '.' !in stem && suffix != "" && suffix[0] == '.'
    ensures !EndsWith(Lower(stem), suffix)
  {
    forall i | 0 <= i < |stem| ensures Lower(stem)[i] != '.' {
      assert stem[i] in stem;
    }
  }

  /** The media type is told by the extension, whatever comes before it and in any case; a title
      without one is plain bytes. */
  lemma MediaTypeTells(stem: string)
    ensures MediaTypeFor(stem + ".html") == "text/html" && MediaTypeFor(stem + ".htm") == "text/html"
    ensures MediaTypeFor(stem + ".json") == "application/json" && MediaTypeFor(stem + ".xml") == "application/xml"
    ensures MediaTypeFor(stem + ".txt") == "text/plain; charset=utf-8"
    ensures MediaTypeFor(stem + ".list") == "text/plain; charset=utf-8"
    ensures MediaTypeFor(stem + ".rpm") == "application/vnd.rpm"
    ensures MediaTypeFor(stem + ".deb") == "application/vnd.debian.binary-package"
    ensures MediaTypeFor(stem + ".zst") == "application/zstd" && MediaTypeFor(stem + ".gz") == "application/gzip"
    ensures '.' !in stem ==> MediaTypeFor(stem) == "application/octet-stream"
    ensures forall other: string | Lower(other) == Lower(stem) :: MediaTypeFor(other) == MediaTypeFor(stem)
  {
    hide MediaTypeFor, Lower;
    KnownMediaType(stem, ".html");
    KnownMediaType(stem, ".htm");
    KnownMediaType(stem, ".json");
    KnownMediaType(stem, ".xml");
    KnownMediaType(stem, ".txt");
    KnownMediaType(stem, ".list");
    KnownMediaType(stem, ".rpm");
    KnownMediaType(stem, ".deb");
    KnownMediaType(stem, ".zst");
    KnownMediaType(stem, ".gz");
    if '.' !in stem {
      NoExtension(stem);
    }
    forall other: string | Lower(other) == Lower(stem) ensures MediaTypeFor(other) == MediaTypeFor(stem) {
      SameCase(other, stem);
    }
  }

  lemma SameCase(a: string, b: string)
    requires Lower(a) == Lower(b)
    ensures MediaTypeFor(a) == MediaTypeFor(b)
  {
    hide Lower, EndsWith;
  }
}
