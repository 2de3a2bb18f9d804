/** What the publisher's loop adds up to: sizes, blobs and the layers that refer to them. */
module Conservation {
  import opened Text
  import opened Orders
  import opened Paths
  import opened Digests
  import opened Manifests
  import opened FileTrees
  import opened Publisher

  /** The total length of a finite set of contents. */
  ghost function SizeOf(contents: set<Content>): nat {
    if contents == {} then 0 else
      var b :| b in contents;
      |b| + SizeOf(contents - {b})
  }

  lemma {:induction false} SizeOfInsert(contents: set<Content>, b: Content)
    requires b !in contents
    ensures SizeOf(contents + {b}) == SizeOf(contents) + |b|
  {
    var all := contents + {b};
    var first :| first in all && SizeOf(all) == |first| + SizeOf(all - {first});
    if first == b {
      assert all - {first} == contents;
    } else {
      var rest := contents - {first};
      assert all - {first} == rest + {b};
      SizeOfInsert(rest, b);
      SizeOfInsert(rest, first);
      assert rest + {first} == contents;
    }
  }

  lemma {:induction false} SizeOfSubset(a: set<Content>, b: set<Content>)
    requires a <= b
    ensures SizeOf(a) <= SizeOf(b)
    decreases |b - a|
  {
    if a != b {
      assert !(b <= a);
      var x :| x in b && x !in a;
      SizeOfInsert(a, x);
      assert b - (a + {x}) < b - a;
      SizeOfSubset(a + {x}, b);
    }
  }

  /** The contents of the selected paths, for those that can be read. */
  ghost function ContentsAt(root: Node, paths: seq<Name>): seq<Content> {
    seq(|paths|, i requires 0 <= i < |paths| => ContentAt(root, paths[i]))
  }

  ghost function ContentAt(root: Node, path: Name): Content {
    match SourceAt(root, path)
    case Ok(bytes) => bytes
    case Err(_) => []
  }

  ghost function Members(contents: seq<Content>): set<Content> {
    set b | b in contents
  }

  /** Every stored blob sits under its own digest and the counter is their total size. */
  ghost predicate Accounted(sha: Digester, draft: Draft) {
    && (forall d | d in draft.fileBlobs :: sha(draft.fileBlobs[d]) == d)
    && draft.totalBytes == SizeOf(draft.fileBlobs.Values)
    && draft.totalBytes <= MAX_PUBLICATION_BYTES
    && (forall layer | layer in draft.layers :: layer.digest in draft.fileBlobs)
    && (forall d | d in draft.fileBlobs :: exists layer :: layer in draft.layers && layer.digest == d)
  }

  lemma ValuesInserted(m: map<string, Content>, d: string, b: Content)
    requires d !in m
    ensures m[d := b].Values == m.Values + {b}
  {
    var next := m[d := b];
    forall c ensures c in next.Values <==> c in m.Values + {b} {
      if c in m.Values {
        var k :| k in m && m[k] == c;
        assert k in next && next[k] == c;
      }
      if c == b {
        assert d in next;
      }
    }
  }

  lemma ExtendedAccounted(sha: Digester, draft: Draft, title: string, bytes: Content)
    requires Accounted(sha, draft) && draft.totalBytes + |bytes| <= MAX_PUBLICATION_BYTES
    ensures Accounted(sha, Extended(sha, draft, title, bytes))
  {
    hide LayerFor, SizeOf;
    ExtendedReferences(sha, draft, title, bytes);
    ExtendedTotal(sha, draft, title, bytes);
  }

  lemma ExtendedTotal(sha: Digester, draft: Draft, title: string, bytes: Content)
    requires draft.totalBytes == SizeOf(draft.fileBlobs.Values)
    requires forall d | d in draft.fileBlobs :: sha(draft.fileBlobs[d]) == d
    ensures var next := Extended(sha, draft, title, bytes);
      && next.totalBytes == SizeOf(next.fileBlobs.Values)
      && (forall d | d in next.fileBlobs :: sha(next.fileBlobs[d]) == d)
  {
    hide LayerFor, SizeOf;
    if sha(bytes) !in draft.fileBlobs {
      forall b | b in draft.fileBlobs.Values ensures b != bytes {
        var d :| d in draft.fileBlobs && draft.fileBlobs[d] == b;
      }
      SizeOfInsert(draft.fileBlobs.Values, bytes);
      ValuesInserted(draft.fileBlobs, sha(bytes), bytes);
    }
  }

  lemma ExtendedReferences(sha: Digester, draft: Draft, title: string, bytes: Content)
    requires forall layer | layer in draft.layers :: layer.digest in draft.fileBlobs
    requires forall d | d in draft.fileBlobs :: exists layer :: layer in draft.layers && layer.digest == d
    ensures var next := Extended(sha, draft, title, bytes);
      && (forall layer | layer in next.layers :: layer.digest in next.fileBlobs)
      && (forall d | d in next.fileBlobs :: exists layer :: layer in next.layers && layer.digest == d)
  {
    hide LayerFor;
    LayerDigest(sha, title, bytes);
    var next, layer := Extended(sha, draft, title, bytes), LayerFor(sha, title, bytes);
    assert layer in next.layers && forall l | l in next.layers :: l in draft.layers || l == layer;
    forall d | d in next.fileBlobs ensures exists l :: l in next.layers && l.digest == d {
      if d in draft.fileBlobs {
        var l :| l in draft.layers && l.digest == d;
        assert l in next.layers;
      }
    }
  }

  lemma LayerDigest(sha: Digester, title: string, bytes: Content)
    ensures LayerFor(sha, title, bytes).digest == sha(bytes)
    ensures LayerFor(sha, title, bytes).size == |bytes|
    ensures HasTitle(LayerFor(sha, title, bytes)) && Title(LayerFor(sha, title, bytes)) == title
  {
  }

  lemma {:induction false} DraftAccounted(sha: Digester, root: Node, paths: seq<Name>)
    requires DraftOf(sha, root, paths).Ok?
    ensures Accounted(sha, DraftOf(sha, root, paths).value)
  {
    hide LayerFor, ValidRelative, SourceAt, Accounted, Extended;
    if paths == [] {
      EmptyAccounted(sha);
    } else {
      var init, last := paths[..|paths| - 1], paths[|paths| - 1];
      DraftAccounted(sha, root, init);
      var draft := DraftOf(sha, root, init).value;
      ExtendedAccounted(sha, draft, RelativeTitle(last).value, SourceAt(root, last).value);
    }
  }

  lemma EmptyAccounted(sha: Digester)
    ensures Accounted(sha, EMPTY_DRAFT)
  {
    assert EMPTY_DRAFT.fileBlobs.Values == {};
  }

  /** A draft that succeeds extends the draft of the earlier paths by its last file. */
  lemma DraftSnoc(sha: Digester, root: Node, paths: seq<Name>, n: nat)
    requires |paths| == n + 1 && DraftOf(sha, root, paths).Ok?
    ensures DraftOf(sha, root, paths[..n]).Ok?
    ensures var last, draft := paths[n], DraftOf(sha, root, paths[..n]).value;
      && last != [] && SourceAt(root, last).Ok? && ValidRelative(Join(last, '/'))
      && Join(last, '/') !in draft.titles && |draft.titles| < MAX_PUBLICATION_FILES
      && DraftOf(sha, root, paths).value == Extended(sha, draft, Join(last, '/'), ContentAt(root, last))
  {
    hide LayerFor, ValidRelative, SourceAt, Join, Extended;
  }

  /** A draft that holds the layer of every file of a list, in order, and stores only their contents. */
  ghost predicate DraftMatches(sha: Digester, root: Node, paths: seq<Name>, draft: Draft) {
    && (forall p | p in paths :: p != [] && SourceAt(root, p).Ok? && ValidRelative(Join(p, '/')))
    && |draft.layers| == |paths|
    && (forall i | 0 <= i < |paths| :: draft.layers[i] == LayerFor(sha, Join(paths[i], '/'), ContentAt(root, paths[i])))
    && draft.titles == TitleSet(paths)
    && |draft.titles| == |paths| <= MAX_PUBLICATION_FILES
    && (forall d | d in draft.fileBlobs :: draft.fileBlobs[d] in ContentsAt(root, paths))
  }

  ghost function TitleSet(paths: seq<Name>): set<string> {
    set p | p in paths :: Join(p, '/')
  }

  lemma MatchesSnoc(sha: Digester, root: Node, init: seq<Name>, last: Name, draft: Draft)
    requires DraftMatches(sha, root, init, draft) && |draft.titles| < MAX_PUBLICATION_FILES
    requires last != [] && SourceAt(root, last).Ok? && ValidRelative(Join(last, '/'))
    requires Join(last, '/') !in draft.titles
    ensures DraftMatches(sha, root, init + [last], Extended(sha, draft, Join(last, '/'), ContentAt(root, last)))
  {
    hide LayerFor, ValidRelative, SourceAt, Join, ContentAt, ContentsAt, TitleSet;
    var paths := init + [last];
    assert forall p | p in paths :: p in init || p == last;
    TitlesSnoc(init, last);
    ContentsSnoc(root, init, last);
  }

  lemma TitlesSnoc(init: seq<Name>, last: Name)
    ensures TitleSet(init + [last]) == TitleSet(init) + {Join(last, '/')}
  {
    hide Join;
    assert last in init + [last];
    assert forall p | p in init :: p in init + [last];
  }

  lemma ContentsSnoc(root: Node, init: seq<Name>, last: Name)
    ensures ContentsAt(root, init + [last]) == ContentsAt(root, init) + [ContentAt(root, last)]
  {
    hide ContentAt;
  }

  lemma {:induction false} DraftLayers(sha: Digester, root: Node, paths: seq<Name>)
    requires DraftOf(sha, root, paths).Ok?
    ensures DraftMatches(sha, root, paths, DraftOf(sha, root, paths).value)
  {
    hide AddFile, DraftMatches, ValidRelative, SourceAt, Join, ContentAt, Extended;
    if paths == [] {
      EmptyMatches(sha, root);
    } else {
      var n := |paths| - 1;
      DraftSnoc(sha, root, paths, n);
      DraftLayers(sha, root, paths[..n]);
      MatchesSnoc(sha, root, paths[..n], paths[n], DraftOf(sha, root, paths[..n]).value);
      assert paths == paths[..n] + [paths[n]];
    }
  }

  lemma EmptyMatches(sha: Digester, root: Node)
    ensures DraftMatches(sha, root, [], EMPTY_DRAFT)
  {
  }

  /** Without digest collisions the counted contents are exactly the distinct file contents. */
  lemma StoredContents(sha: Digester, root: Node, paths: seq<Name>)
    requires DraftOf(sha, root, paths).Ok?
    requires CollisionFree(sha, Members(ContentsAt(root, paths)))
    ensures DraftOf(sha, root, paths).value.fileBlobs.Values == Members(ContentsAt(root, paths))
    ensures DraftOf(sha, root, paths).value.totalBytes ==
      SizeOf(Members(ContentsAt(root, paths))) <= MAX_PUBLICATION_BYTES
  {
    hide LayerFor, ValidRelative, SourceAt, Join, DraftOf, SizeOf;
    DraftLayers(sha, root, paths);
    DraftAccounted(sha, root, paths);
    var draft := DraftOf(sha, root, paths).value;
    var contents := ContentsAt(root, paths);
    forall d | d in draft.fileBlobs ensures draft.fileBlobs[d] in Members(contents) {
      assert draft.fileBlobs[d] in contents;
    }
    forall b | b in Members(contents) ensures b in draft.fileBlobs.Values {
      ContentStored(sha, root, paths, draft, b);
    }
  }

  lemma ContentStored(sha: Digester, root: Node, paths: seq<Name>, draft: Draft, b: Content)
    requires DraftMatches(sha, root, paths, draft) && Accounted(sha, draft)
    requires CollisionFree(sha, Members(ContentsAt(root, paths))) && b in ContentsAt(root, paths)
    ensures b in draft.fileBlobs.Values
  {
    hide LayerFor, ValidRelative, SourceAt, Join, SizeOf, ContentAt, TitleSet;
    var contents := ContentsAt(root, paths);
    var i :| 0 <= i < |contents| && contents[i] == b;
    LayerDigest(sha, Join(paths[i], '/'), b);
    assert draft.layers[i] in draft.layers;
    var stored := draft.fileBlobs[sha(b)];
    assert stored in contents && stored in Members(contents) && b in Members(contents);
  }

  // ---- The finished publication ----

  ghost predicate Listed(blobs: seq<Blob>, digest: string, size: nat) {
    exists b :: b in blobs && b.digest == digest && |b.bytes| == size
  }

  /** Every layer and the config resolve to a listed blob of their digest and size, every listed
      blob has the digest of its bytes and is referred to, and the paths are the layer titles. */
  lemma PublicationResolves(sha: Digester, root: Node, paths: seq<Name>)
    requires PublishFiles(sha, root, paths).Ok?
    requires CollisionFree(sha, Members(ContentsAt(root, paths)))
    ensures var publication := PublishFiles(sha, root, paths).value;
      var m := publication.manifest;
      && (forall layer | layer in m.layers :: Listed(publication.blobs, layer.digest, layer.size))
      && Listed(publication.blobs, m.config.digest, m.config.size)
      && (forall b | b in publication.blobs :: sha(b.bytes) == b.digest
            && (b.digest == m.config.digest || exists layer :: layer in m.layers && layer.digest == b.digest)
            && (b.bytes == EMPTY_CONFIG || b.bytes in Members(ContentsAt(root, paths))))
      && publication.paths == TitlesOf(m.layers)
  {
    hide LayerFor, PublishFiles, DraftOf, Accounted, DraftMatches, StoredBlobs, ContentsAt, CollisionFree, TitlesOf;
    PublicationParts(sha, root, paths);
    var draft := DraftOf(sha, root, paths).value;
    DraftLayers(sha, root, paths);
    DraftAccounted(sha, root, paths);
    StoredContents(sha, root, paths);
    var publication := PublishFiles(sha, root, paths).value;
    forall layer | layer in publication.manifest.layers
      ensures Listed(publication.blobs, layer.digest, layer.size)
    {
      LayerStored(sha, root, paths, draft, layer);
      assert Blob(layer.digest, draft.fileBlobs[layer.digest]) in publication.blobs;
    }
    assert Blob(sha(EMPTY_CONFIG), EMPTY_CONFIG) in publication.blobs;
    forall b | b in publication.blobs
      ensures sha(b.bytes) == b.digest
      ensures b.bytes == EMPTY_CONFIG || b.bytes in Members(ContentsAt(root, paths))
      ensures b.digest == publication.manifest.config.digest
        || exists layer :: layer in publication.manifest.layers && layer.digest == b.digest
    {
      if b in StoredBlobs(draft.fileBlobs) {
        BlobReferred(sha, draft, b.digest);
        assert b.bytes in draft.fileBlobs.Values;
      }
    }
  }

  /** A publication has the drafted layers, the stored blobs and the config, reordered. */
  lemma PublicationParts(sha: Digester, root: Node, paths: seq<Name>)
    requires PublishFiles(sha, root, paths).Ok?
    ensures DraftOf(sha, root, paths).Ok?
    ensures var draft, publication := DraftOf(sha, root, paths).value, PublishFiles(sha, root, paths).value;
      && (forall layer :: layer in publication.manifest.layers <==> layer in draft.layers)
      && (forall b ::
        b in publication.blobs <==> b in StoredBlobs(draft.fileBlobs) || b == Blob(sha(EMPTY_CONFIG), EMPTY_CONFIG))
      && publication.manifest.config.digest == sha(EMPTY_CONFIG) && publication.manifest.config.size == |EMPTY_CONFIG|
      && publication.paths == TitlesOf(publication.manifest.layers)
  {
    hide DraftOf, ByTitle, ByDigest, StoredBlobs, TitlesOf;
    var draft, publication := DraftOf(sha, root, paths).value, PublishFiles(sha, root, paths).value;
    var unsorted := StoredBlobs(draft.fileBlobs) + [Blob(sha(EMPTY_CONFIG), EMPTY_CONFIG)];
    SameMembers(publication.blobs, unsorted);
    SameMembers(publication.manifest.layers, draft.layers);
    assert unsorted[|unsorted| - 1] in unsorted;
  }

  lemma LayerStored(sha: Digester, root: Node, paths: seq<Name>, draft: Draft, layer: Descriptor)
    requires DraftMatches(sha, root, paths, draft) && Accounted(sha, draft)
    requires CollisionFree(sha, Members(ContentsAt(root, paths))) && layer in draft.layers
    ensures layer.digest in draft.fileBlobs && |draft.fileBlobs[layer.digest]| == layer.size
  {
    hide LayerFor, ValidRelative, SourceAt, Join, SizeOf, ContentAt, TitleSet;
    var i :| 0 <= i < |draft.layers| && draft.layers[i] == layer;
    var bytes := ContentAt(root, paths[i]);
    LayerDigest(sha, Join(paths[i], '/'), bytes);
    assert ContentsAt(root, paths)[i] == bytes;
    var stored := draft.fileBlobs[layer.digest];
    assert stored in Members(ContentsAt(root, paths)) && bytes in Members(ContentsAt(root, paths));
  }

  lemma BlobReferred(sha: Digester, draft: Draft, d: string)
    requires Accounted(sha, draft) && d in draft.fileBlobs
    ensures sha(draft.fileBlobs[d]) == d && exists layer :: layer in draft.layers && layer.digest == d
  {
    hide SizeOf;
  }
}
