/** The total length of a map of files, and its relation to the publisher's order-dependent limit. */
module FileSums {
  import opened Text
  import opened Orders
  import opened Paths
  import opened Digests
  import opened TitledTrees
  import opened Publisher
  import opened Conservation
  import opened Cycle
  import opened Image

  /** The sum of the lengths of all files, repeated contents counted every time. */
  ghost function TotalBytes(files: Files): nat
    decreases |files|
  {
    if files == map[] then 0 else
      var t :| t in files;
      Smaller(files, t);
      |files[t]| + TotalBytes(files - {t})
  }

  lemma Smaller(files: Files, t: string)
    requires t in files
    ensures |files - {t}| == |files| - 1
  {
    assert (files - {t}).Keys == files.Keys - {t};
    assert |(files - {t}).Keys| == |files - {t}| && |files.Keys| == |files|;
  }

  lemma {:induction false} TotalWithout(files: Files, t: string)
    requires t in files
    ensures TotalBytes(files) == |files[t]| + TotalBytes(files - {t})
    decreases |files|
  {
    var first :| first in files && TotalBytes(files) == |files[first]| + TotalBytes(files - {first});
    if first != t {
      Smaller(files, first);
      Smaller(files, t);
      TotalWithout(files - {first}, t);
      TotalWithout(files - {t}, first);
      assert files - {first} - {t} == files - {t} - {first};
    }
  }

  // ---- Repeated contents ----

  /** No non-empty content occurs twice. */
  ghost predicate NothingRepeated(files: Files) {
    forall s, t | s in files && t in files && s != t && files[s] == files[t] :: files[s] == []
  }

  /** Counting each content once gives at most the total, and the total exactly when no non-empty
      content occurs twice. */
  lemma {:induction false} TotalOfDistinct(files: Files)
    ensures SizeOf(files.Values) <= TotalBytes(files)
    ensures SizeOf(files.Values) == TotalBytes(files) <==> NothingRepeated(files)
    decreases |files|
  {
    hide SizeOf, TotalBytes, NothingRepeated;
    if files == map[] {
      NothingDistinct();
    } else {
      var t :| t in files;
      var rest := files - {t};
      Smaller(files, t);
      TotalOfDistinct(rest);
      TotalWithout(files, t);
      ValuesWithout(files, t);
      RepeatedWithout(files, t);
      if files[t] in rest.Values {
        assert rest.Values + {files[t]} == rest.Values;
      } else {
        SizeOfInsert(rest.Values, files[t]);
      }
    }
  }

  lemma NothingDistinct()
    ensures var none: Files := map[];
      SizeOf(none.Values) == 0 && TotalBytes(none) == 0 && NothingRepeated(none)
  {
    var none: Files := map[];
    assert none.Values == {};
  }

  lemma ValuesWithout(files: Files, t: string)
    requires t in files
    ensures files.Values == (files - {t}).Values + {files[t]}
  {
    var rest := files - {t};
    forall b ensures b in files.Values <==> b in rest.Values + {files[t]} {
      if b in files.Values {
        var s :| s in files && files[s] == b;
        assert s == t || (s in rest && rest[s] == b);
      }
      if b in rest.Values {
        var s :| s in rest && rest[s] == b;
        assert files[s] == b;
      }
    }
  }

  lemma RepeatedWithout(files: Files, t: string)
    requires t in files
    ensures var rest := files - {t};
      NothingRepeated(files) <==> NothingRepeated(rest) && (files[t] in rest.Values ==> files[t] == [])
  {
    var rest := files - {t};
    if files[t] in rest.Values {
      var s :| s in rest && rest[s] == files[t];
      assert files[s] == files[t];
    }
    forall s | s in rest ensures rest[s] in rest.Values && rest[s] == files[s] {
    }
  }

  /** The contents in component order are the contents of the map. */
  lemma OrderedMembers(files: Files)
    ensures Members(ContentsInOrder(files)) == files.Values
  {
    hide ValidFile, PathLess, Split, Join;
    PathStrictTotal();
    var names, contents := NamesInOrder(files), ContentsInOrder(files);
    forall b | b in files.Values ensures b in contents {
      var t :| t in files && files[t] == b;
      assert TitleName(t) in NamesOf(files);
      var i :| 0 <= i < |names| && names[i] == TitleName(t);
      JoinOfSplit(t, '/');
      assert contents[i] == b;
    }
    forall b | b in contents ensures b in files.Values {
      var i :| 0 <= i < |contents| && contents[i] == b;
      assert names[i] in names && names[i] in NamesOf(files);
      var t :| t in files && TitleName(t) == names[i];
      JoinOfSplit(t, '/');
      assert files[t] == b;
    }
  }

  // ---- The total along an enumeration ----

  ghost function LengthsAlong(files: Files, titles: seq<string>): nat
    requires forall t | t in titles :: t in files
  {
    if titles == [] then 0 else
      var n := |titles| - 1;
      assert titles[n] in titles && forall t | t in titles[..n] :: t in titles;
      LengthsAlong(files, titles[..n]) + |files[titles[n]]|
  }

  /** Along any enumeration of the titles the lengths add up to the total. */
  lemma {:induction false} TotalAlong(files: Files, titles: seq<string>)
    requires forall t :: t in titles <==> t in files
    requires forall i, j | 0 <= i < j < |titles| :: titles[i] != titles[j]
    ensures LengthsAlong(files, titles) == TotalBytes(files)
  {
    hide TotalBytes, LengthsAlong;
    LengthsUnfold(files, titles);
    if titles == [] {
      assert files == map[];
      NothingTotal();
    } else {
      var n := |titles| - 1;
      var t, init := titles[n], titles[..n];
      LastTitle(files, titles);
      TotalAlong(files - {t}, init);
      SameLengths(files, files - {t}, init);
      TotalWithout(files, t);
    }
  }

  lemma NothingTotal()
    ensures TotalBytes(map[]) == 0
  {
  }

  lemma LengthsUnfold(files: Files, titles: seq<string>)
    requires forall t | t in titles :: t in files
    ensures titles == [] ==> LengthsAlong(files, titles) == 0
    ensures titles != [] ==> titles[|titles| - 1] in files && forall t | t in titles[..|titles| - 1] :: t in files
    ensures titles != [] ==>
      LengthsAlong(files, titles) == LengthsAlong(files, titles[..|titles| - 1]) + |files[titles[|titles| - 1]]|
  {
    if titles != [] {
      var n := |titles| - 1;
      assert titles[n] in titles && forall t | t in titles[..n] :: t in titles;
    }
  }

  /** Without the last title of an enumeration, the rest enumerates the rest. */
  lemma LastTitle(files: Files, titles: seq<string>)
    requires titles != [] && forall t :: t in titles <==> t in files
    requires forall i, j | 0 <= i < j < |titles| :: titles[i] != titles[j]
    ensures var t, init := titles[|titles| - 1], titles[..|titles| - 1];
      t in files && forall s :: s in init <==> s in files - {t}
  {
    var n := |titles| - 1;
    var t, init := titles[n], titles[..n];
    assert t in titles && t !in init;
    forall s ensures s in init <==> s in files - {t} {
      assert s in titles <==> s in init || s == t;
    }
  }

  lemma {:induction false} SameLengths(a: Files, b: Files, titles: seq<string>)
    requires forall t | t in titles :: t in a && t in b && a[t] == b[t]
    ensures LengthsAlong(a, titles) == LengthsAlong(b, titles)
  {
    if titles != [] {
      var n := |titles| - 1;
      assert titles[n] in titles && forall t | t in titles[..n] :: t in titles;
      SameLengths(a, b, titles[..n]);
    }
  }

  ghost function Lengths(contents: seq<Content>): nat {
    if contents == [] then 0 else Lengths(contents[..|contents| - 1]) + |contents[|contents| - 1]|
  }

  lemma {:induction false} CountedAtMostLengths(sha: Digester, contents: seq<Content>)
    ensures CountedBytes(sha, contents) <= Lengths(contents)
  {
    hide DigestsOf;
    if contents != [] {
      CountedAtMostLengths(sha, contents[..|contents| - 1]);
    }
  }

  lemma {:induction false} LengthsPrefix(contents: seq<Content>, i: nat)
    requires i < |contents|
    ensures Lengths(contents[..i]) + |contents[i]| <= Lengths(contents)
  {
    var n := |contents| - 1;
    if i < n {
      LengthsPrefix(contents[..n], i);
      assert contents[..n][..i] == contents[..i];
    }
  }

  lemma TotalFits(sha: Digester, contents: seq<Content>)
    requires Lengths(contents) <= MAX_PUBLICATION_BYTES
    ensures FitsInTurn(sha, contents)
  {
    hide CountedBytes, Lengths;
    forall i | 0 <= i < |contents| ensures CountedBytes(sha, contents[..i]) + |contents[i]| <= MAX_PUBLICATION_BYTES {
      CountedAtMostLengths(sha, contents[..i]);
      LengthsPrefix(contents, i);
    }
  }

  ghost function TitlesInOrder(files: Files): seq<string> {
    var names := NamesInOrder(files);
    seq(|names|, i requires 0 <= i < |names| => NameTitle(names[i]))
  }

  lemma NamesTitled(files: Files)
    requires ValidTitles(files)
    ensures forall t :: t in TitlesInOrder(files) <==> t in files
    ensures forall i, j | 0 <= i < j < |TitlesInOrder(files)| :: TitlesInOrder(files)[i] != TitlesInOrder(files)[j]
    ensures |TitlesInOrder(files)| == |ContentsInOrder(files)|
    ensures forall i | 0 <= i < |TitlesInOrder(files)| ::
      TitlesInOrder(files)[i] in files && ContentsInOrder(files)[i] == files[TitlesInOrder(files)[i]]
  {
    hide ValidFile, Split, Join, PathLess;
    PathStrictTotal();
    var names, titles := NamesInOrder(files), TitlesInOrder(files);
    forall i | 0 <= i < |names| ensures titles[i] in files && TitleName(titles[i]) == names[i] {
      assert names[i] in NamesOf(files);
      var t :| t in files && TitleName(t) == names[i];
      TitleRoundTrip(t);
    }
    forall i, j | 0 <= i < j < |titles| ensures titles[i] != titles[j] {
      assert PathLess(names[i], names[j]);
    }
    forall t | t in files ensures t in titles {
      TitleRoundTrip(t);
      assert TitleName(t) in NamesOf(files);
      var i :| 0 <= i < |names| && names[i] == TitleName(t);
      assert titles[i] == t;
    }
  }

  lemma {:induction false} LengthsAgree(files: Files, titles: seq<string>, contents: seq<Content>)
    requires |titles| == |contents|
    requires forall i | 0 <= i < |titles| :: titles[i] in files && contents[i] == files[titles[i]]
    ensures LengthsAlong(files, titles) == Lengths(contents)
  {
    if titles != [] {
      var n := |titles| - 1;
      LengthsAgree(files, titles[..n], contents[..n]);
    }
  }

  /** Files whose lengths sum to at most the limit always fit in component order. */
  lemma WithinTotalFits(sha: Digester, files: Files)
    requires ValidTitles(files) && TotalBytes(files) <= MAX_PUBLICATION_BYTES
    ensures FitsInTurn(sha, ContentsInOrder(files))
  {
    hide ValidTitles, TitlesInOrder, ContentsInOrder, FitsInTurn;
    NamesTitled(files);
    TotalAlong(files, TitlesInOrder(files));
    LengthsAgree(files, TitlesInOrder(files), ContentsInOrder(files));
    TotalFits(sha, ContentsInOrder(files));
  }

  lemma CountsOfOne(sha: Digester, b: Content)
    ensures FitsInTurn(sha, []) && CountedBytes(sha, []) == 0 && CountedBytes(sha, [b]) == |b|
    ensures DigestsOf(sha, [b]) == {sha(b)}
  {
    assert [b][..0] == [] && [b][0] == b;
    assert DigestsOf(sha, []) == {};
    assert b in [b];
  }

  /** Repeated content is counted once by the publisher and every time by the editor: three equal
      files of 30 MiB fit a publication although their total does not. */
  lemma RepeatedContentFits(sha: Digester, b: Content)
    requires |b| == 30 * 1024 * 1024
    ensures FitsInTurn(sha, [b, b, b]) && Lengths([b, b, b]) > MAX_PUBLICATION_BYTES
  {
    hide CountedBytes, DigestsOf, FitsInTurn;
    CountsOfOne(sha, b);
    FitsSnoc(sha, [], b);
    FitsSnoc(sha, [b], b);
    FitsSnoc(sha, [b, b], b);
    CountedSnoc(sha, [b], b);
    DigestsSnoc(sha, [b], b);
    assert [] + [b] == [b] && [b] + [b] == [b, b] && [b, b] + [b] == [b, b, b];
    assert [b, b, b][..2] == [b, b] && [b, b][..1] == [b] && [b][..0] == [];
    assert Lengths([b]) == |b|;
    assert Lengths([b, b]) == 2 * |b|;
  }
}
