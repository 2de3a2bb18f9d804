/** The projection of mixed manifests: exactly which manifests are indexed, and that only their
    visible layers decide. */
module Projection {
  import opened Wrappers
  import opened Orders
  import opened Paths
  import opened Autoindex
  import opened Manifests

  // ---- Visible layers alone ----

  ghost predicate Projected(layers: seq<Descriptor>) {
    forall d | d in layers :: IsVisible(d) && HasTitle(d) && ValidDescriptor(d) && ValidFile(Title(d))
  }

  ghost function ObjectsOf(layers: seq<Descriptor>): seq<VisibleObject>
    requires forall d | d in layers :: HasTitle(d)
  {
    seq(|layers|, i requires 0 <= i < |layers| => assert layers[i] in layers; ObjectOf(layers[i]))
  }

  lemma {:induction false} ProjectIsBuild(layers: seq<Descriptor>)
    requires Projected(layers)
    ensures Project(layers).Ok? <==> Build(ObjectsOf(layers)).Some?
    ensures Project(layers).Ok? ==> Project(layers).value == Build(ObjectsOf(layers)).value
  {
    hide IsVisible, ValidDescriptor, ValidFile, InsertObject, NewObject, ObjectOf;
    if layers != [] {
      var n := |layers| - 1;
      var init, last := layers[..n], layers[n];
      assert last in layers;
      assert forall d | d in init :: d in layers;
      ProjectIsBuild(init);
      assert ObjectsOf(layers)[..n] == ObjectsOf(init);
      assert ObjectsOf(layers)[n] == ObjectOf(last);
      NewObjectValid(Title(last), last.digest, last.mediaType, last.size);
      LastObject(last);
    }
  }

  lemma LayersTitled(layers: seq<Descriptor>)
    requires Projected(layers)
    ensures forall d | d in layers :: HasTitle(d)
  {
  }

  lemma LastObject(d: Descriptor)
    requires HasTitle(d)
    ensures ObjectOf(d) == VisibleObject(Title(d), d.digest, d.mediaType, d.size)
  {
  }

  /** What projects has valid titles, if all of it is visible. */
  lemma {:induction false} ProjectedTitles(layers: seq<Descriptor>)
    requires Project(layers).Ok? && forall d | d in layers :: IsVisible(d)
    ensures Projected(layers)
  {
    hide IsVisible, ValidDescriptor, ValidFile, InsertObject, NewObject;
    if layers != [] {
      var n := |layers| - 1;
      var init, last := layers[..n], layers[n];
      assert last in layers && forall d | d in init :: d in layers;
      ProjectedTitles(init);
      if HasTitle(last) {
        NewObjectValid(Title(last), last.digest, last.mediaType, last.size);
      }
      assert forall d | d in layers :: d in init || d == last;
    }
  }

  // ---- Hidden layers ----

  /** The layers that opt in to being listed, in their order. */
  function VisibleOf(layers: seq<Descriptor>): seq<Descriptor> {
    if layers == [] then [] else
      var last := layers[|layers| - 1];
      VisibleOf(layers[..|layers| - 1]) + if IsVisible(last) then [last] else []
  }

  lemma {:induction false} VisibleMembers(layers: seq<Descriptor>)
    ensures forall d :: d in VisibleOf(layers) <==> d in layers && IsVisible(d)
  {
    hide IsVisible;
    if layers != [] {
      var n := |layers| - 1;
      VisibleMembers(layers[..n]);
      assert layers == layers[..n] + [layers[n]];
    }
  }

  lemma {:induction false} ProjectVisible(layers: seq<Descriptor>)
    ensures Project(layers) == Project(VisibleOf(layers))
  {
    hide ProjectLayer;
    if layers != [] {
      var n := |layers| - 1;
      ProjectVisible(layers[..n]);
      if IsVisible(layers[n]) {
        ProjectSnoc(VisibleOf(layers[..n]), layers[n]);
      } else {
        assert VisibleOf(layers) == VisibleOf(layers[..n]);
        HiddenLayer(layers, n);
      }
    }
  }

  lemma ProjectSnoc(init: seq<Descriptor>, last: Descriptor)
    ensures Project(init + [last]) ==
      if Project(init).Err? then Project(init) else ProjectLayer(Project(init).value, last)
  {
    hide ProjectLayer;
    assert (init + [last])[..|init|] == init;
  }

  lemma HiddenLayer(layers: seq<Descriptor>, n: nat)
    requires |layers| == n + 1 && !IsVisible(layers[n])
    ensures Project(layers) == Project(layers[..n])
  {
  }

  /** The visible layers have valid descriptors and titles, and no two titles stand in each other's way. */
  ghost predicate ProjectableLayers(layers: seq<Descriptor>) {
    && Projected(VisibleOf(layers))
    && ConflictFree(ObjectsOf(VisibleOf(layers)))
  }

  /** A manifest is indexed exactly when its envelope is the expected one and all its visible layers
      can be listed together; the index then holds exactly their objects. */
  lemma ParsesIff(m: Manifest)
    ensures ParseManifest(m).Ok? <==>
      && m.schemaVersion == 2 && m.mediaType == MANIFEST_MEDIA_TYPE && ValidDescriptor(m.config)
      && ProjectableLayers(m.layers)
    ensures ParseManifest(m).Ok? ==> Holds(ParseManifest(m).value.objects, ObjectsOf(VisibleOf(m.layers)))
  {
    hide Project, Projected, ObjectsOf, ConflictFree, Holds, ValidDescriptor, CrudCompatible, VisibleOf;
    ProjectVisible(m.layers);
    VisibleMembers(m.layers);
    var visible := VisibleOf(m.layers);
    if Project(visible).Ok? {
      ProjectedTitles(visible);
    }
    if Projected(visible) {
      LayersTitled(visible);
      ProjectIsBuild(visible);
      BuildSucceedsIff(ObjectsOf(visible));
    }
  }

  /** `parse_autoindex_manifest`. */
  method ParseAutoindexManifest(m: Manifest) returns (r: Result<Snapshot, OciError>)
    ensures r.Ok? <==>
      && m.schemaVersion == 2 && m.mediaType == MANIFEST_MEDIA_TYPE && ValidDescriptor(m.config)
      && ProjectableLayers(m.layers)
    ensures r.Ok? ==> Holds(r.value.objects, ObjectsOf(VisibleOf(m.layers))) && Projectable(r.value.objects)
    ensures r.Ok? ==> (r.value.crudCompatible <==> CrudCompatible(m))
    ensures r == ParseManifest(m)
  {
    hide Project, ProjectableLayers, ValidDescriptor, CrudCompatible, Holds, ObjectsOf, VisibleOf, Projectable;
    ParsesIff(m);
    if m.schemaVersion != 2 || m.mediaType != MANIFEST_MEDIA_TYPE {
      return Err(InvalidLayout);
    }
    if !ValidDescriptor(m.config) {
      return Err(InvalidDescriptor);
    }
    var projected := ProjectLayers(m.layers);
    match projected
    case Err(e) => return Err(e);
    case Ok(objects) => return Ok(Snapshot(objects, CrudCompatible(m)));
  }

  /** Hidden layers never matter: adding, removing or moving them changes neither whether a
      manifest is indexed nor what is in the index. */
  lemma HiddenLayersIgnored(m: Manifest, n: Manifest)
    requires m.schemaVersion == n.schemaVersion && m.mediaType == n.mediaType && m.config == n.config
    requires VisibleOf(m.layers) == VisibleOf(n.layers)
    ensures ParseManifest(m).Ok? ==>
      ParseManifest(n).Ok? && ParseManifest(n).value.objects == ParseManifest(m).value.objects
    ensures ParseManifest(m).Err? ==> ParseManifest(n) == ParseManifest(m)
  {
    hide Project, VisibleOf, ValidDescriptor, CrudCompatible;
    ProjectVisible(m.layers);
    ProjectVisible(n.layers);
  }

  /** The order of the visible layers does not matter either. */
  lemma LayerOrderIgnored(m: Manifest, n: Manifest)
    requires m.schemaVersion == n.schemaVersion && m.mediaType == n.mediaType && m.config == n.config
    requires multiset(VisibleOf(m.layers)) == multiset(VisibleOf(n.layers))
    ensures ParseManifest(m).Ok? ==>
      ParseManifest(n).Ok? && ParseManifest(n).value.objects == ParseManifest(m).value.objects
  {
    hide Projected, ObjectsOf, ConflictFree, ValidDescriptor, CrudCompatible, VisibleOf, Project, Build;
    var a, b := VisibleOf(m.layers), VisibleOf(n.layers);
    ProjectVisible(m.layers);
    ProjectVisible(n.layers);
    VisibleMembers(m.layers);
    if Project(a).Ok? {
      ProjectedTitles(a);
      ProjectedPermuted(a, b);
      ProjectIsBuild(a);
      ProjectIsBuild(b);
      LayersTitled(a);
      LayersTitled(b);
      BuildIgnoresOrder(ObjectsOf(a), ObjectsOf(b));
    }
  }

  lemma ProjectedPermuted(a: seq<Descriptor>, b: seq<Descriptor>)
    requires multiset(a) == multiset(b) && Projected(a)
    ensures Projected(b) && multiset(ObjectsOf(a)) == multiset(ObjectsOf(b))
  {
    hide IsVisible, ValidDescriptor, ValidFile, ObjectsOf;
    SameMembers(a, b);
    ObjectsPermuted(a, b);
  }

  lemma ObjectsPermuted(a: seq<Descriptor>, b: seq<Descriptor>)
    requires multiset(a) == multiset(b) && (forall d | d in a :: HasTitle(d)) && forall d | d in b :: HasTitle(d)
    ensures multiset(ObjectsOf(a)) == multiset(ObjectsOf(b))
  {
    hide ObjectOf, HasTitle;
    var view := (d: Descriptor) => if HasTitle(d) then ObjectOf(d) else VisibleObject("", "", "", 0);
    assert ObjectsOf(a) == Mapped(view, a) && ObjectsOf(b) == Mapped(view, b);
    MappedPermuted(view, a, b);
  }

  /** One visible layer without a title, or with an unusable one, makes the whole manifest unusable. */
  lemma UnlistableLayerRefused(m: Manifest, d: Descriptor)
    requires d in m.layers && IsVisible(d) && (!HasTitle(d) || !ValidFile(Title(d)) || !ValidDescriptor(d))
    ensures ParseManifest(m).Err?
  {
    hide ValidFile, ValidDescriptor, ConflictFree, IsVisible, VisibleOf, ParseManifest;
    ParsesIff(m);
    VisibleMembers(m.layers);
  }
}
