/** The order of a selection: when it decides whether the files can be published, and that it never
    decides what is published. */
module SelectionOrder {
  import opened Wrappers
  import opened Text
  import opened Orders
  import opened Paths
  import opened Digests
  import opened FileTrees
  import opened Publisher
  import opened Conservation
  import opened Cycle
  import opened FileSums

  // ---- Contents ----

  /** Without collisions the bytes counted are those of the distinct contents. */
  lemma {:induction false} CountedIsSize(sha: Digester, contents: seq<Content>)
    requires CollisionFree(sha, Members(contents))
    ensures CountedBytes(sha, contents) == SizeOf(Members(contents))
  {
    hide SizeOf, CountedBytes, DigestsOf;
    if contents == [] {
      NothingCounted(sha);
    } else {
      var init, last := contents[..|contents| - 1], contents[|contents| - 1];
      assert contents == init + [last];
      CountedSnoc(sha, init, last);
      MembersSnoc(init, last);
      CountedIsSize(sha, init);
      KnownIffMember(sha, init, last);
      if last in init {
        assert Members(contents) == Members(init);
      } else {
        SizeOfInsert(Members(init), last);
      }
    }
  }

  lemma NothingCounted(sha: Digester)
    ensures CountedBytes(sha, []) == 0 == SizeOf(Members([]))
  {
  }

  lemma MembersSnoc(init: seq<Content>, last: Content)
    ensures Members(init + [last]) == Members(init) + {last}
  {
  }

  lemma KnownIffMember(sha: Digester, init: seq<Content>, last: Content)
    requires CollisionFree(sha, Members(init) + {last})
    ensures sha(last) in DigestsOf(sha, init) <==> last in init
  {
    if sha(last) in DigestsOf(sha, init) {
      var b :| b in init && sha(b) == sha(last);
      assert b in Members(init);
    }
  }

  /** The distinct contents are within the limit, and leave room for any that occurs twice to be
      counted once more. */
  ghost predicate RoomForRepeats(contents: seq<Content>) {
    && SizeOf(Members(contents)) <= 67_108_864
    && forall b | b in contents && multiset(contents)[b] >= 2 ::
        SizeOf(Members(contents)) + |b| <= 67_108_864
  }

  lemma RoomFits(sha: Digester, contents: seq<Content>)
    requires CollisionFree(sha, Members(contents)) && RoomForRepeats(contents)
    ensures FitsInTurn(sha, contents)
  {
    hide SizeOf, CountedBytes;
    forall i | 0 <= i < |contents| ensures CountedBytes(sha, contents[..i]) + |contents[i]| <= MAX_PUBLICATION_BYTES {
      var before, b := contents[..i], contents[i];
      assert Members(before) <= Members(contents);
      CountedIsSize(sha, before);
      if b in before {
        var k :| 0 <= k < i && contents[k] == b;
        DistinctCount(contents, k, i);
        SizeOfSubset(Members(before), Members(contents));
      } else {
        SizeOfInsert(Members(before), b);
        SizeOfSubset(Members(before) + {b}, Members(contents));
      }
    }
  }

  lemma RoomPermuted(a: seq<Content>, b: seq<Content>)
    requires multiset(a) == multiset(b)
    ensures Members(a) == Members(b) && (RoomForRepeats(a) ==> RoomForRepeats(b))
  {
    hide SizeOf;
    SameMembers(a, b);
    assert Members(a) == Members(b);
  }

  lemma FittingTotal(sha: Digester, contents: seq<Content>)
    requires CollisionFree(sha, Members(contents)) && FitsInTurn(sha, contents)
    ensures SizeOf(Members(contents)) <= MAX_PUBLICATION_BYTES
  {
    hide SizeOf, CountedBytes, FitsInTurn;
    CountedIsSize(sha, contents);
    if contents == [] {
      NothingCounted(sha);
    } else {
      var init, last := contents[..|contents| - 1], contents[|contents| - 1];
      assert contents == init + [last];
      FitsSnoc(sha, init, last);
      CountedSnoc(sha, init, last);
    }
  }

  /** With the second occurrence of a content moved to the end, everything else comes before it. */
  lemma RepeatLast(sha: Digester, contents: seq<Content>, i: nat, j: nat)
    requires i < j < |contents| && contents[i] == contents[j]
    requires CollisionFree(sha, Members(contents)) && FitsInTurn(sha, Without(contents, j) + [contents[j]])
    ensures SizeOf(Members(contents)) + |contents[j]| <= MAX_PUBLICATION_BYTES
  {
    hide SizeOf, CountedBytes, FitsInTurn;
    var rest := Without(contents, j);
    assert contents[i] == rest[i];
    assert contents == contents[..j] + [contents[j]] + contents[j + 1..];
    assert Members(rest) == Members(contents);
    CountedIsSize(sha, rest);
    FitsSnoc(sha, rest, contents[j]);
  }

  lemma EveryOrderHasRoom(sha: Digester, contents: seq<Content>)
    requires CollisionFree(sha, Members(contents))
    requires forall order | multiset(order) == multiset(contents) :: FitsInTurn(sha, order)
    ensures RoomForRepeats(contents)
  {
    hide SizeOf, FitsInTurn, CollisionFree;
    FittingTotal(sha, contents);
    forall b | b in contents && multiset(contents)[b] >= 2
      ensures SizeOf(Members(contents)) + |b| <= MAX_PUBLICATION_BYTES
    {
      var i, j := TwoOccurrences(contents, b);
      WithoutOne(contents, j);
      RepeatLast(sha, contents, i, j);
    }
  }

  /** Contents fit the publisher's limit in every order exactly when the distinct ones fit, with room
      for any repeated one once more. */
  lemma EveryOrderFitsIff(sha: Digester, contents: seq<Content>)
    requires CollisionFree(sha, Members(contents))
    ensures (forall order | multiset(order) == multiset(contents) :: FitsInTurn(sha, order)) <==>
      RoomForRepeats(contents)
  {
    hide FitsInTurn, CollisionFree, RoomForRepeats;
    if RoomForRepeats(contents) {
      forall order | multiset(order) == multiset(contents) ensures FitsInTurn(sha, order) {
        RoomPermuted(contents, order);
        RoomFits(sha, order);
      }
    } else if forall order | multiset(order) == multiset(contents) :: FitsInTurn(sha, order) {
      EveryOrderHasRoom(sha, contents);
    }
  }

  // ---- Selections ----

  /** What the publishing loop asks of a selection apart from its bytes. */
  ghost predicate Selectable(root: Node, paths: seq<Name>) {
    ReadablePaths(root, paths) && forall p | p in paths :: ValidRelative(Join(p, '/'))
  }

  lemma ContentsMapped(root: Node, paths: seq<Name>)
    ensures ContentsAt(root, paths) == Mapped((p: Name) => ContentAt(root, p), paths)
  {
    hide ContentAt;
  }

  lemma TitlesDistinct(paths: seq<Name>)
    ensures Distinct(Mapped((p: Name) => Join(p, '/'), paths)) <==>
      forall i, j | 0 <= i < j < |paths| :: Join(paths[i], '/') != Join(paths[j], '/')
  {
    hide Join;
    var titles := Mapped((p: Name) => Join(p, '/'), paths);
    assert forall i | 0 <= i < |paths| :: titles[i] == Join(paths[i], '/');
  }

  lemma SelectablePermuted(root: Node, a: seq<Name>, b: seq<Name>)
    requires multiset(a) == multiset(b) && Selectable(root, a)
    ensures Selectable(root, b)
  {
    hide ValidRelative, SourceAt, Join;
    var title := (p: Name) => Join(p, '/');
    SameMembers(a, b);
    TitlesDistinct(a);
    TitlesDistinct(b);
    MappedPermuted(title, a, b);
    DistinctPermuted(Mapped(title, a), Mapped(title, b));
  }

  ghost predicate EveryOrderDrafts(sha: Digester, root: Node, paths: seq<Name>) {
    forall order | multiset(order) == multiset(paths) :: DraftOf(sha, root, order).Ok?
  }

  lemma EveryOrderSelectable(sha: Digester, root: Node, paths: seq<Name>)
    requires CollisionFree(sha, Members(ContentsAt(root, paths)))
    requires EveryOrderDrafts(sha, root, paths)
    ensures Selectable(root, paths) && RoomForRepeats(ContentsAt(root, paths))
  {
    hide ReadablePaths, ContentsAt, ContentAt, CollisionFree, FitsInTurn, RoomForRepeats, DraftOf, DraftCounts,
      ValidRelative, Join, Mapped, SizeOf;
    var f := (p: Name) => ContentAt(root, p);
    var contents := ContentsAt(root, paths);
    ContentsMapped(root, paths);
    assert DraftOf(sha, root, paths).Ok?;
    DraftSucceedsIff(sha, root, paths);
    forall values | multiset(values) == multiset(contents) ensures FitsInTurn(sha, values) {
      var order := LiftOrder(f, paths, values);
      ContentsMapped(root, order);
      DraftSucceedsIff(sha, root, order);
    }
    EveryOrderHasRoom(sha, contents);
  }

  lemma RoomDrafts(sha: Digester, root: Node, paths: seq<Name>, order: seq<Name>)
    requires CollisionFree(sha, Members(ContentsAt(root, paths))) && multiset(order) == multiset(paths)
    requires Selectable(root, paths) && RoomForRepeats(ContentsAt(root, paths))
    ensures DraftOf(sha, root, order).Ok?
  {
    hide ReadablePaths, ContentsAt, ContentAt, CollisionFree, FitsInTurn, RoomForRepeats, DraftOf, DraftCounts,
      ValidRelative, Join, Mapped;
    SelectablePermuted(root, paths, order);
    ContentsMapped(root, paths);
    ContentsMapped(root, order);
    MappedPermuted((p: Name) => ContentAt(root, p), paths, order);
    RoomPermuted(ContentsAt(root, paths), ContentsAt(root, order));
    RoomFits(sha, ContentsAt(root, order));
    DraftSucceedsIff(sha, root, order);
  }

  /** A selection can be published in every order exactly when its files are readable under distinct
      valid titles, not too many, and leave room for repetitions. */
  lemma EveryOrderDraftsIff(sha: Digester, root: Node, paths: seq<Name>)
    requires CollisionFree(sha, Members(ContentsAt(root, paths)))
    ensures EveryOrderDrafts(sha, root, paths) <==> Selectable(root, paths) && RoomForRepeats(ContentsAt(root, paths))
  {
    hide ContentsAt, CollisionFree, RoomForRepeats, DraftOf, Selectable;
    if Selectable(root, paths) && RoomForRepeats(ContentsAt(root, paths)) {
      forall order | multiset(order) == multiset(paths) ensures DraftOf(sha, root, order).Ok? {
        RoomDrafts(sha, root, paths, order);
      }
    } else if EveryOrderDrafts(sha, root, paths) {
      EveryOrderSelectable(sha, root, paths);
    }
  }

  /** Three files of 20, 20 and 40 MiB, the smaller two alike. */
  function ThreeFiles(small: Content, large: Content): Node {
    Directory(map["a" := File(small), "b" := File(small), "c" := File(large)])
  }

  lemma RepetitionFirst(sha: Digester, small: Content, large: Content)
    requires |small| == 20 * 1024 * 1024 && |large| == 40 * 1024 * 1024 && sha(small) != sha(large)
    ensures FitsInTurn(sha, [small, small, large]) && !FitsInTurn(sha, [small, large, small])
  {
    hide CountedBytes, DigestsOf, FitsInTurn;
    CountsOfOne(sha, small);
    FitsSnoc(sha, [], small);
    FitsSnoc(sha, [small], small);
    FitsSnoc(sha, [small], large);
    FitsSnoc(sha, [small, small], large);
    FitsSnoc(sha, [small, large], small);
    CountedSnoc(sha, [small], small);
    CountedSnoc(sha, [small], large);
    assert [] + [small] == [small] && [small] + [small] == [small, small] && [small] + [large] == [small, large];
    assert [small, small] + [large] == [small, small, large];
    assert [small, large] + [small] == [small, large, small];
  }

  /** A selection that is refused for its bytes alone is refused as exceeding the limit. */
  lemma {:induction false} OnlyLimitFails(sha: Digester, root: Node, paths: seq<Name>)
    requires Selectable(root, paths) && DraftOf(sha, root, paths).Err?
    ensures DraftOf(sha, root, paths) == Err(LimitExceeded)
  {
    hide DraftOf, AddFile, DraftCounts, FitsInTurn, Selectable, ContentsAt;
    DraftUnfold(sha, root, paths);
    if paths != [] {
      var init, last := paths[..|paths| - 1], paths[|paths| - 1];
      assert paths == init + [last];
      SelectableSnoc(root, init, last);
      if DraftOf(sha, root, init).Err? {
        OnlyLimitFails(sha, root, init);
      } else {
        DraftSucceedsIff(sha, root, init);
        LastLimitFails(sha, root, init, last, DraftOf(sha, root, init).value);
      }
    }
  }

  lemma SelectableSnoc(root: Node, init: seq<Name>, last: Name)
    requires Selectable(root, init + [last])
    ensures Selectable(root, init)
    ensures last != [] && SourceAt(root, last).Ok? && ValidRelative(Join(last, '/'))
    ensures Join(last, '/') !in TitleSet(init) && |init| < MAX_PUBLICATION_FILES
  {
    hide ReadablePaths, SourceAt, ValidRelative, Join, TitleSet;
    ReadableSnoc(root, init, last);
    ValidSnoc(init, last);
  }

  lemma LastLimitFails(sha: Digester, root: Node, init: seq<Name>, last: Name, draft: Draft)
    requires DraftCounts(sha, root, init, draft)
    requires last != [] && SourceAt(root, last).Ok? && ValidRelative(Join(last, '/'))
    requires Join(last, '/') !in TitleSet(init) && |init| < MAX_PUBLICATION_FILES
    requires AddFile(sha, root, draft, last).Err?
    ensures AddFile(sha, root, draft, last) == Err(LimitExceeded)
  {
    hide SourceAt, ValidRelative, Join, TitleSet, CountedBytes, DigestsOf, ContentsAt, Extended;
  }

  /** The order can decide: the same three files of one tree are published when the repetition comes
      before the larger file and refused when it comes after. */
  lemma OrderDecidesPublication(sha: Digester, small: Content, large: Content)
    requires |small| == 20 * 1024 * 1024 && |large| == 40 * 1024 * 1024 && sha(small) != sha(large)
    ensures PublishFiles(sha, ThreeFiles(small, large), [["a"], ["b"], ["c"]]).Ok?
    ensures PublishFiles(sha, ThreeFiles(small, large), [["a"], ["c"], ["b"]]) == Err(LimitExceeded)
  {
    hide PublishFiles, FitsInTurn, Selectable;
    RepetitionFirst(sha, small, large);
    ThreeSelectable(small, large);
    SelectionPublishes(sha, ThreeFiles(small, large), [["a"], ["b"], ["c"]]);
    SelectionPublishes(sha, ThreeFiles(small, large), [["a"], ["c"], ["b"]]);
  }

  /** A non-empty selectable selection is published when it fits in turn, and otherwise exceeds the limit. */
  lemma SelectionPublishes(sha: Digester, root: Node, paths: seq<Name>)
    requires root.Directory? && paths != [] && Selectable(root, paths)
    ensures FitsInTurn(sha, ContentsAt(root, paths)) ==> PublishFiles(sha, root, paths).Ok?
    ensures !FitsInTurn(sha, ContentsAt(root, paths)) ==> PublishFiles(sha, root, paths) == Err(LimitExceeded)
  {
    hide DraftOf, DraftCounts, FitsInTurn, ContentsAt, ReadablePaths, ValidRelative, Join, Sort, StoredBlobs;
    DraftSucceedsIff(sha, root, paths);
    if DraftOf(sha, root, paths).Ok? {
      DraftedPublishes(sha, root, paths);
    } else {
      OnlyLimitFails(sha, root, paths);
    }
  }

  lemma ThreeSelectable(small: Content, large: Content)
    ensures var root := ThreeFiles(small, large);
      && Selectable(root, [["a"], ["b"], ["c"]]) && Selectable(root, [["a"], ["c"], ["b"]])
      && ContentsAt(root, [["a"], ["b"], ["c"]]) == [small, small, large]
      && ContentsAt(root, [["a"], ["c"], ["b"]]) == [small, large, small]
  {
    hide ValidRelative;
    PlainLetter('a');
    PlainLetter('b');
    PlainLetter('c');
    assert Join(["a"], '/') == "a" && Join(["b"], '/') == "b" && Join(["c"], '/') == "c";
  }

  lemma PlainLetter(c: char)
    requires 'a' <= c <= 'z'
    ensures ValidRelative([c])
  {
    SplitWhole([c], '/');
    assert [c][0..] == [c];
    assert Components([c]) == [[c]];
  }

  lemma DraftedPublishes(sha: Digester, root: Node, paths: seq<Name>)
    requires root.Directory? && paths != [] && DraftOf(sha, root, paths).Ok?
    ensures PublishFiles(sha, root, paths).Ok?
  {
    hide DraftOf, Sort, StoredBlobs;
    DraftLayers(sha, root, paths);
  }

  // ---- What is published ----

  lemma DraftedLayers(sha: Digester, root: Node, paths: seq<Name>)
    requires DraftOf(sha, root, paths).Ok?
    ensures DraftOf(sha, root, paths).value.layers ==
      Mapped((p: Name) => LayerFor(sha, Join(p, '/'), ContentAt(root, p)), paths)
  {
    hide DraftOf, LayerFor, Join, ContentAt, ContentsAt, SourceAt, ValidRelative, TitleSet;
    DraftLayers(sha, root, paths);
  }

  lemma DraftedComparable(sha: Digester, root: Node, paths: seq<Name>)
    requires DraftOf(sha, root, paths).Ok?
    ensures Comparable(ByTitle, DraftOf(sha, root, paths).value.layers)
  {
    hide DraftOf, LayerFor, Join, ContentAt, ContentsAt, SourceAt, ValidRelative, TitleSet, DraftCounts, FitsInTurn,
      TextLess;
    DraftSucceedsIff(sha, root, paths);
    DraftLayers(sha, root, paths);
    TextStrictTotal();
    var layers := DraftOf(sha, root, paths).value.layers;
    forall i, j | 0 <= i < |layers| && 0 <= j < |layers| && i != j
      ensures ByTitle(layers[i], layers[j]) || ByTitle(layers[j], layers[i])
    {
      LayerDigest(sha, Join(paths[i], '/'), ContentAt(root, paths[i]));
      LayerDigest(sha, Join(paths[j], '/'), ContentAt(root, paths[j]));
      assert i < j || j < i;
    }
  }

  /** Sorted by title, the layers no longer show the order of the selection. */
  lemma OrderKeepsLayers(sha: Digester, root: Node, a: seq<Name>, b: seq<Name>)
    requires multiset(a) == multiset(b) && DraftOf(sha, root, a).Ok? && DraftOf(sha, root, b).Ok?
    ensures Sort(ByTitle, DraftOf(sha, root, a).value.layers) == Sort(ByTitle, DraftOf(sha, root, b).value.layers)
    ensures DraftOf(sha, root, a).value.layers == [] <==> DraftOf(sha, root, b).value.layers == []
  {
    hide DraftOf, ByTitle, LayerFor, Join, ContentAt, Sort, Mapped;
    var layers, others := DraftOf(sha, root, a).value.layers, DraftOf(sha, root, b).value.layers;
    DraftedLayers(sha, root, a);
    DraftedLayers(sha, root, b);
    MappedPermuted((p: Name) => LayerFor(sha, Join(p, '/'), ContentAt(root, p)), a, b);
    SameMembers(layers, others);
    DraftedComparable(sha, root, a);
    DraftedComparable(sha, root, b);
    ByTitleOrder();
    SortIncreasing(ByTitle, layers);
    SortIncreasing(ByTitle, others);
    SameMembers(Sort(ByTitle, layers), Sort(ByTitle, others));
    IncreasingUnique(ByTitle, Sort(ByTitle, layers), Sort(ByTitle, others));
  }

  /** The blobs stored for a selection, by its contents alone. */
  ghost predicate StoredFrom(sha: Digester, contents: set<Content>, blobs: map<string, Content>) {
    && (forall b | b in contents :: sha(b) in blobs)
    && (forall d | d in blobs :: blobs[d] in contents && sha(blobs[d]) == d)
  }

  lemma DraftedBlobs(sha: Digester, root: Node, paths: seq<Name>)
    requires DraftOf(sha, root, paths).Ok?
    ensures StoredFrom(sha, Members(ContentsAt(root, paths)), DraftOf(sha, root, paths).value.fileBlobs)
  {
    hide DraftOf, ContentAt, ContentsAt, SizeOf, LayerFor, SourceAt, ValidRelative, Join, TitleSet, FitsInTurn,
      ReadablePaths, CountedBytes;
    DraftSucceedsIff(sha, root, paths);
    DraftLayers(sha, root, paths);
    DraftAccounted(sha, root, paths);
  }

  lemma StoredUnique(sha: Digester, contents: set<Content>, a: map<string, Content>, b: map<string, Content>)
    requires CollisionFree(sha, contents) && StoredFrom(sha, contents, a) && StoredFrom(sha, contents, b)
    ensures a == b
  {
  }

  lemma OrderKeepsBlobs(sha: Digester, root: Node, a: seq<Name>, b: seq<Name>)
    requires multiset(a) == multiset(b) && DraftOf(sha, root, a).Ok? && DraftOf(sha, root, b).Ok?
    requires CollisionFree(sha, Members(ContentsAt(root, a)))
    ensures DraftOf(sha, root, a).value.fileBlobs == DraftOf(sha, root, b).value.fileBlobs
  {
    hide DraftOf, ContentAt, ContentsAt, Mapped, StoredFrom, CollisionFree;
    ContentsMapped(root, a);
    ContentsMapped(root, b);
    MappedPermuted((p: Name) => ContentAt(root, p), a, b);
    SameMembers(ContentsAt(root, a), ContentsAt(root, b));
    assert Members(ContentsAt(root, a)) == Members(ContentsAt(root, b));
    DraftedBlobs(sha, root, a);
    DraftedBlobs(sha, root, b);
    StoredUnique(sha, Members(ContentsAt(root, a)), DraftOf(sha, root, a).value.fileBlobs,
      DraftOf(sha, root, b).value.fileBlobs);
  }

  /** Whatever the order of a selection, what is published is the same. */
  lemma OrderKeepsPublication(sha: Digester, root: Node, a: seq<Name>, b: seq<Name>)
    requires multiset(a) == multiset(b) && CollisionFree(sha, Members(ContentsAt(root, a)))
    requires PublishFiles(sha, root, a).Ok? && PublishFiles(sha, root, b).Ok?
    ensures PublishFiles(sha, root, a) == PublishFiles(sha, root, b)
  {
    hide DraftOf, Sort, StoredBlobs, CollisionFree, ContentsAt, ManifestFor, TitlesOf;
    OrderKeepsLayers(sha, root, a, b);
    OrderKeepsBlobs(sha, root, a, b);
  }
}
