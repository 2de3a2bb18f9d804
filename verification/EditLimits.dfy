/** When a published artifact can still be edited, and artifacts that cannot. */
module EditLimits {
  import opened Text
  import opened Orders
  import opened Paths
  import opened Digests
  import opened FileTrees
  import opened Manifests
  import opened Publisher
  import opened TitledTrees
  import opened Conservation
  import opened Cycle
  import opened Image
  import opened Characterization
  import opened Editor
  import opened FileSums
  import opened EditorProperties

  /** Once the manifest outgrows the reader's limit every command fails, and nothing changes. */
  lemma OversizedManifestIsStuck(
    sha: Digester, manifestBytes: Encoding, registry: Registry, files: Files, command: Command)
    requires Represents(sha, registry, files)
    ensures (forall c :: Decide(sha, manifestBytes, files, c).Err?) <==> !Loadable(sha, manifestBytes, files)
    ensures !Loadable(sha, manifestBytes, files) ==>
      var (answer, after) := Step(sha, manifestBytes, registry, NO_FAULTS, command); answer.Err? && after == registry
  {
    hide Represents, Loadable, ManifestOf, ValidRelative, Materialized, Publishable, BlobsOf;
    RepresentedLoads(sha, manifestBytes, registry, files);
    if Loadable(sha, manifestBytes, files) {
      PreviewPossible(sha, manifestBytes, files);
    }
  }

  lemma PreviewPossible(sha: Digester, manifestBytes: Encoding, files: Files)
    requires Loadable(sha, manifestBytes, files)
    ensures exists c :: Decide(sha, manifestBytes, files, c).Ok?
  {
    hide Loadable, Split;
    var command := if "a" in files then Update(Regular([]), "a", true) else Create(Regular([]), "a", true);
    PlainTitle("a");
    assert Decide(sha, manifestBytes, files, command).Ok?;
  }

  /** A title of lower-case letters alone. */
  lemma PlainTitle(t: string)
    requires 0 < |t| <= MAX_PATH_BYTES && forall c | c in t :: 'a' <= c <= 'z'
    ensures ValidFile(t) && '/' !in t
  {
    SplitWhole(t, '/');
    assert t[0] in t && t[|t| - 1] in t;
    assert t[|t| - 1..] == [t[|t| - 1]];
    assert Components(t) == [t];
  }

  lemma MatchingOne(files: Files, t: string)
    requires ValidTitles(files) && t in files
    ensures ValidRelative(t) && Matching(t, files.Keys) == {t}
  {
    hide ValidRelative;
    assert ValidFile(t);
  }

  lemma FirstCreatePossible(sha: Digester, manifestBytes: Encoding)
    ensures Decide(sha, manifestBytes, map[], Create(Regular([]), "a", false)).Ok?
  {
    hide Publishable, ValidRelative, ManifestOf, TotalBytes, IsDirectory;
    PlainTitle("a");
    FirstFilePublishable(sha);
    NothingTotal();
    var command := Create(Regular([]), "a", false);
    var none: Files := map[];
    assert CheckArguments(command).Ok? && CheckCommand(command, none.Keys).Ok?;
    assert Edited(none, command) == map["a" := []];
  }

  lemma FirstFilePublishable(sha: Digester)
    ensures Publishable(sha, map["a" := []])
  {
    hide FitsInTurn, ValidFile, ContentsInOrder, TotalBytes;
    PlainTitle("a");
    OneEmptyFile();
    var files: Files := map["a" := []];
    assert |files| == 1;
    WithinTotalFits(sha, files);
  }

  lemma OneEmptyFile()
    ensures TotalBytes(map["a" := []]) == 0
  {
    var files: Files := map["a" := []];
    TotalWithout(files, "a");
    assert files - {"a"} == map[];
  }

  /** The files are few enough to publish, or deleting one path leaves few enough. */
  ghost predicate Reducible(files: Files) {
    |files| <= 10_000
    || exists path :: ValidRelative(path) && |files - Matching(path, files.Keys)| <= 10_000
  }

  lemma {:induction false} TotalOfPart(files: Files, removed: set<string>)
    ensures TotalBytes(files - removed) <= TotalBytes(files)
    decreases |removed|
  {
    if t :| t in removed {
      TotalOfPart(files, removed - {t});
      var larger := files - (removed - {t});
      if t in larger {
        TotalWithout(larger, t);
        assert larger - {t} == files - removed;
      } else {
        assert larger == files - removed;
      }
    } else {
      assert files - removed == files;
    }
  }

  lemma DeletePossible(sha: Digester, manifestBytes: Encoding, files: Files, path: string)
    requires ValidTitles(files) && ValidRelative(path)
    requires Matching(path, files.Keys) != {} && |files - Matching(path, files.Keys)| <= MAX_PUBLICATION_FILES
    requires Loadable(sha, manifestBytes, files) && TotalBytes(files) <= MAX_PUBLICATION_BYTES
    ensures Decide(sha, manifestBytes, files, Delete(path, false)).Ok?
  {
    hide Loadable, ValidRelative, ValidTitles, TotalBytes, Publishable, Matching, CheckArguments, CheckCommand, Edited,
      Obstructed;
    DeleteChecks(files, path);
    var left := files - Matching(path, files.Keys);
    if left != map[] {
      TotalOfPart(files, Matching(path, files.Keys));
      PartPublishable(sha, files, left);
    }
  }

  lemma DeleteChecks(files: Files, path: string)
    requires ValidRelative(path) && Matching(path, files.Keys) != {}
    ensures var command := Delete(path, false);
      && CheckArguments(command).Ok? && CheckCommand(command, files.Keys).Ok? && !Obstructed(files, command)
      && Edited(files, command) == files - Matching(path, files.Keys)
  {
    hide ValidRelative, Matching;
  }

  lemma PartPublishable(sha: Digester, files: Files, left: Files)
    requires ValidTitles(files) && left.Keys <= files.Keys && left != map[]
    requires |left| <= MAX_PUBLICATION_FILES && TotalBytes(left) <= MAX_PUBLICATION_BYTES
    ensures Publishable(sha, left)
  {
    hide ValidFile, TotalBytes, FitsInTurn, ContentsInOrder;
    WithinTotalFits(sha, left);
  }

  lemma OnlyReducible(sha: Digester, manifestBytes: Encoding, files: Files, command: Command)
    requires !command.dryRun && Decide(sha, manifestBytes, files, command).Ok?
    ensures Reducible(files)
  {
    hide Loadable, ValidRelative, ValidFile, TotalBytes, FitsInTurn, Matching, ContentsInOrder, Obstructed;
    var edited := Edited(files, command);
    assert |edited| <= MAX_PUBLICATION_FILES;
    if !command.Delete? {
      assert files.Keys <= edited.Keys;
      NoFewer(files, edited);
    }
  }

  lemma {:induction false} NoFewer(files: Files, more: Files)
    requires files.Keys <= more.Keys
    ensures |files| <= |more|
    decreases |files|
  {
    if t :| t in files {
      Smaller(files, t);
      Smaller(more, t);
      NoFewer(files - {t}, more - {t});
    }
  }

  /** Some edit of an artifact can succeed exactly when its manifest is within the reader's limit,
      its files, repetitions counted, are within the byte limit, and no more than 10,000 files are
      there or left by some deletion. The publisher guarantees only the last. */
  lemma EditPossibleIff(sha: Digester, manifestBytes: Encoding, files: Files)
    requires ValidTitles(files)
    ensures (exists c: Command :: !c.dryRun && Decide(sha, manifestBytes, files, c).Ok?)
      <==> Loadable(sha, manifestBytes, files) && TotalBytes(files) <= 67_108_864 && Reducible(files)
  {
    hide Loadable, ValidTitles, Decide, Reducible;
    if Loadable(sha, manifestBytes, files) && TotalBytes(files) <= MAX_PUBLICATION_BYTES && Reducible(files) {
      var c := PossibleEdit(sha, manifestBytes, files);
    }
    forall c: Command | !c.dryRun && Decide(sha, manifestBytes, files, c).Ok?
      ensures Loadable(sha, manifestBytes, files) && TotalBytes(files) <= MAX_PUBLICATION_BYTES && Reducible(files)
    {
      DecidedWithinLimits(sha, manifestBytes, files, c);
      OnlyReducible(sha, manifestBytes, files, c);
    }
  }

  lemma PossibleEdit(sha: Digester, manifestBytes: Encoding, files: Files) returns (c: Command)
    requires ValidTitles(files) && Loadable(sha, manifestBytes, files) && TotalBytes(files) <= MAX_PUBLICATION_BYTES
    requires Reducible(files)
    ensures !c.dryRun && Decide(sha, manifestBytes, files, c).Ok?
  {
    hide Loadable, ValidTitles, Decide, ValidRelative;
    if files == map[] {
      FirstCreatePossible(sha, manifestBytes);
      c := Create(Regular([]), "a", false);
    } else if |files| <= MAX_PUBLICATION_FILES {
      var t :| t in files;
      MatchingOne(files, t);
      Smaller(files, t);
      DeletePossible(sha, manifestBytes, files, t);
      c := Delete(t, false);
    } else {
      var path :| ValidRelative(path) && |files - Matching(path, files.Keys)| <= MAX_PUBLICATION_FILES;
      assert Matching(path, files.Keys) == {} ==> files - Matching(path, files.Keys) == files;
      DeletePossible(sha, manifestBytes, files, path);
      c := Delete(path, false);
    }
  }

  lemma DecidedWithinLimits(sha: Digester, manifestBytes: Encoding, files: Files, command: Command)
    requires !command.dryRun && Decide(sha, manifestBytes, files, command).Ok?
    ensures Loadable(sha, manifestBytes, files) && TotalBytes(files) <= MAX_PUBLICATION_BYTES
  {
    hide Loadable, TotalBytes, Edited, Obstructed, Publishable, CheckArguments, CheckCommand;
  }

  // ---- Artifacts that can be published and not edited ----

  /** A title never lies below another one of its length. */
  lemma SameLengthNoConflicts(files: Files, n: nat)
    requires forall t | t in files :: |t| == n
    ensures NoConflicts(files)
  {
  }

  /** With one content in all files, the contents in order are that content repeated. */
  lemma OneContent(files: Files, b: Content)
    requires forall t | t in files :: ValidFile(t) && files[t] == b
    ensures |ContentsInOrder(files)| == |files|
    ensures forall i | 0 <= i < |files| :: ContentsInOrder(files)[i] == b
  {
    hide ValidFile, PathLess, Split, Join;
    PathStrictTotal();
    var names := NamesInOrder(files);
    forall s, t | s in files && t in files && s != t ensures TitleName(s) != TitleName(t) {
      JoinOfSplit(s, '/');
      JoinOfSplit(t, '/');
    }
    ImageSize(files.Keys);
    assert NamesOf(files) == set t | t in files.Keys :: TitleName(t);
    forall i | 0 <= i < |names| ensures FileAt(files, names[i]) == b {
      assert names[i] in names && names[i] in NamesOf(files);
      var t :| t in files && TitleName(t) == names[i];
      JoinOfSplit(t, '/');
    }
  }

  /** Three files of the same 30 MiB can be published, but no edit of them can ever succeed: the
      publisher counts the content once, the editor three times. */
  lemma RepeatedContentUneditable(sha: Digester, manifestBytes: Encoding, b: Content)
    requires |b| == 30 * 1024 * 1024
    ensures var files: Files := map["a" := b, "b" := b, "c" := b];
      && Publishable(sha, files) && Published(sha, ManifestOf(sha, files))
      && forall c: Command | !c.dryRun :: Decide(sha, manifestBytes, files, c).Err?
  {
    hide ValidFile, ContentsInOrder, FitsInTurn, NoConflicts, Published, ManifestOf, Decide, TotalBytes, Lengths;
    var files: Files := map["a" := b, "b" := b, "c" := b];
    ThreeTitles();
    assert |files| == 3;
    OneContent(files, b);
    assert ContentsInOrder(files) == [b, b, b];
    RepeatedContentFits(sha, b);
    SameLengthNoConflicts(files, 1);
    PublishableIsPublished(sha, files);
    ThreeTotal(b);
    forall c: Command | !c.dryRun ensures Decide(sha, manifestBytes, files, c).Err? {
      if Decide(sha, manifestBytes, files, c).Ok? {
        DecidedWithinLimits(sha, manifestBytes, files, c);
      }
    }
  }

  lemma ThreeTitles()
    ensures ValidFile("a") && ValidFile("b") && ValidFile("c")
    ensures '/' !in "a" && '/' !in "b" && '/' !in "c"
  {
    hide ValidFile;
    PlainTitle("a");
    PlainTitle("b");
    PlainTitle("c");
  }

  lemma ThreeTotal(b: Content)
    ensures TotalBytes(map["a" := b, "b" := b, "c" := b]) == 3 * |b|
  {
    hide TotalBytes;
    var three: Files := map["a" := b, "b" := b, "c" := b];
    var two: Files := map["a" := b, "b" := b];
    var one: Files := map["a" := b];
    var none: Files := map[];
    TotalWithout(three, "c");
    TotalWithout(two, "b");
    TotalWithout(one, "a");
    NothingTotal();
    assert three - {"c"} == two && two - {"b"} == one && one - {"a"} == none;
  }

  // ---- A manifest that outgrows the reader ----

  const MANY_TITLES := 4300
  const NAME_LENGTH := 250
  const NAMES_IN_TITLE := 4
  const TITLE_LENGTH := NAMES_IN_TITLE * (NAME_LENGTH + 1) - 1

  /** A file name of `k` letters a and then letters b. */
  function LongName(k: nat): (s: string)
    ensures |s| == NAME_LENGTH
  {
    seq(NAME_LENGTH, i requires 0 <= i < NAME_LENGTH => if i < k then 'a' else 'b')
  }

  /** The components of the `k`th of the long titles; the first two tell the titles apart. */
  function LongNames(k: nat): (names: Name)
    ensures |names| == NAMES_IN_TITLE
  {
    [LongName(k / NAME_LENGTH), LongName(k % NAME_LENGTH), LongName(0), LongName(0)]
  }

  function LongTitle(k: nat): string {
    Join(LongNames(k), '/')
  }

  function LongTitles(n: nat): set<string> {
    set k | 0 <= k < n :: LongTitle(k)
  }

  /** That many empty files with long titles. */
  function LongTitled(n: nat): Files {
    map t | t in LongTitles(n) :: []
  }

  lemma LongNamesDiffer(j: nat, k: nat)
    requires j < k <= NAME_LENGTH
    ensures LongName(j) != LongName(k)
  {
    assert LongName(j)[j] == 'b' && LongName(k)[j] == 'a';
  }

  lemma LongNameLetters(k: nat)
    ensures LongName(k) != "" && forall c | c in LongName(k) :: 'a' <= c <= 'z'
  {
  }

  /** The components of a long title are plain names of 250 letters. */
  lemma LongTitleParts(k: nat)
    ensures Split(LongTitle(k), '/') == LongNames(k)
    ensures forall name | name in LongNames(k) :: |name| == NAME_LENGTH && forall c | c in name :: 'a' <= c <= 'z'
  {
    hide LongName, Split, Join;
    LongNameLetters(k / NAME_LENGTH);
    LongNameLetters(k % NAME_LENGTH);
    LongNameLetters(0);
    SplitOfJoin(LongNames(k), '/');
  }

  lemma LongTitlesDiffer(j: nat, k: nat)
    requires j < k < NAME_LENGTH * NAME_LENGTH
    ensures LongTitle(j) != LongTitle(k)
  {
    hide LongTitle, LongName;
    LongTitleParts(j);
    LongTitleParts(k);
    if j / NAME_LENGTH < k / NAME_LENGTH {
      LongNamesDiffer(j / NAME_LENGTH, k / NAME_LENGTH);
    } else {
      LongNamesDiffer(j % NAME_LENGTH, k % NAME_LENGTH);
    }
    assert LongNames(j)[0] != LongNames(k)[0] || LongNames(j)[1] != LongNames(k)[1];
  }

  lemma {:induction false} LongTitlesCounted(n: nat)
    requires n <= MANY_TITLES
    ensures |LongTitles(n)| == n
  {
    hide LongTitle;
    if n == 0 {
      assert LongTitles(0) == {};
    } else {
      LongTitlesCounted(n - 1);
      forall j | 0 <= j < n - 1 ensures LongTitle(j) != LongTitle(n - 1) {
        LongTitlesDiffer(j, n - 1);
      }
      assert LongTitles(n) == LongTitles(n - 1) + {LongTitle(n - 1)};
    }
  }

  /** A join of a few names of lower-case letters is a title. */
  lemma NamesTitle(names: Name)
    requires 0 < |names| <= MAX_PATH_SEGMENTS && |Join(names, '/')| <= MAX_PATH_BYTES
    requires forall name | name in names :: name != "" && forall c | c in name :: 'a' <= c <= 'z'
    ensures ValidFile(Join(names, '/'))
  {
    hide Split, Join, IsSafePathChar, IsPlainSegment, IsDirectory;
    var title := Join(names, '/');
    forall c | c in title ensures IsSafePathChar(c) {
      JoinedChars(names, '/', c);
      LetterIsSafe(c);
    }
    forall name | name in names ensures '/' !in name && IsPlainSegment(name) {
      assert name[0] in name;
      LettersPlain(name);
    }
    assert names[0] in names && names[|names| - 1] in names;
    assert names[0][0] in names[0];
    SplitOfJoin(names, '/');
    JoinEnd(names);
    JoinStart(names);
    NoTrailingSlash(title);
  }

  lemma LetterIsSafe(c: char)
    ensures 'a' <= c <= 'z' || c == '/' ==> IsSafePathChar(c)
  {
  }

  lemma LettersPlain(name: string)
    requires name != "" && 'a' <= name[0] <= 'z'
    ensures IsPlainSegment(name)
  {
  }

  lemma NoTrailingSlash(s: string)
    requires s != "" && s[|s| - 1] != '/'
    ensures !IsDirectory(s)
  {
  }

  lemma JoinStart(names: Name)
    requires names != [] && names[0] != ""
    ensures Join(names, '/') != "" && Join(names, '/')[0] == names[0][0]
  {
  }

  lemma LongTitleLength(k: nat)
    ensures |LongTitle(k)| == TITLE_LENGTH
  {
    hide LongName, Join;
    var a, b, c := LongName(k / NAME_LENGTH), LongName(k % NAME_LENGTH), LongName(0);
    assert LongNames(k) == [a] + [b, c, c] && [b, c, c] == [b] + [c, c] && [c, c] == [c] + [c];
    JoinCons(a, [b, c, c], '/');
    JoinCons(b, [c, c], '/');
    JoinCons(c, [c], '/');
    JoinOne(c, '/');
  }

  lemma LongTitleValid(t: string, n: nat)
    requires t in LongTitles(n)
    ensures ValidFile(t) && |t| == TITLE_LENGTH
    ensures forall name | name in Split(t, '/') :: |name| == NAME_LENGTH
  {
    hide ValidFile, LongName, Join, Split;
    var k :| 0 <= k < n && LongTitle(k) == t;
    LongTitleParts(k);
    LongTitleLength(k);
    NamesTitle(LongNames(k));
  }

  lemma {:induction false} EmptyFilesTotal(files: Files)
    requires forall t | t in files :: files[t] == []
    ensures TotalBytes(files) == 0
    decreases |files|
  {
    hide TotalBytes;
    if t :| t in files {
      Smaller(files, t);
      EmptyFilesTotal(files - {t});
      TotalWithout(files, t);
    } else {
      NothingTotal();
    }
  }

  /** The characters of the titles of a list of layers. */
  function TitleChars(layers: seq<Descriptor>): nat {
    if layers == [] then 0 else TitleChars(layers[..|layers| - 1]) + |TitleOf(layers[|layers| - 1])|
  }

  lemma TitleCharsSnoc(layers: seq<Descriptor>)
    requires layers != []
    ensures TitleChars(layers) == TitleChars(layers[..|layers| - 1]) + |TitleOf(layers[|layers| - 1])|
  {
    hide TitleOf;
  }

  lemma {:induction false} TitleCharsOf(layers: seq<Descriptor>, n: nat)
    requires forall d | d in layers :: |TitleOf(d)| == n
    ensures TitleChars(layers) == n * |layers|
  {
    hide TitleOf;
    if layers == [] {
      assert n * |layers| == 0;
    } else {
      hide TitleChars;
      var init := layers[..|layers| - 1];
      TitleCharsSnoc(layers);
      TitleCharsOf(init, n);
      assert n * |layers| == n * |init| + n;
    }
  }

  lemma LongTitledChars(sha: Digester, n: nat)
    requires n <= MANY_TITLES
    ensures TitleChars(ManifestOf(sha, LongTitled(n)).layers) == TITLE_LENGTH * n
  {
    hide LayersOf, LayerFor, TitleOf, TitleChars, LongTitle, LongTitles, Increasing;
    var files := LongTitled(n);
    var layers := ManifestOf(sha, files).layers;
    LayersOfMembers(sha, files);
    forall d | d in layers ensures |TitleOf(d)| == TITLE_LENGTH {
      var t :| t in files && d == LayerFor(sha, t, files[t]);
      LongTitleValid(t, n);
      TitleOfLayer(sha, t, files[t]);
    }
    TitleCharsOf(layers, TITLE_LENGTH);
    LongTitlesCounted(n);
    assert files.Keys == LongTitles(n) && |files| == |files.Keys|;
  }

  lemma TitleOfLayer(sha: Digester, title: string, bytes: Content)
    ensures TitleOf(LayerFor(sha, title, bytes)) == title
  {
    LayerDigest(sha, title, bytes);
  }

  lemma LongTitledFiles(n: nat)
    ensures forall t | t in LongTitled(n) :: LongTitled(n)[t] == [] && ValidFile(t) && |t| == TITLE_LENGTH
  {
    hide ValidFile, Split, LongTitles;
    forall t | t in LongTitled(n) ensures ValidFile(t) && |t| == TITLE_LENGTH {
      LongTitleValid(t, n);
    }
  }

  lemma LongTitledPublishable(sha: Digester, n: nat)
    requires 0 < n <= MANY_TITLES
    ensures Publishable(sha, LongTitled(n)) && NoConflicts(LongTitled(n))
  {
    hide ValidFile, ContentsInOrder, FitsInTurn, NoConflicts, LongTitled, TotalBytes, Split;
    var files := LongTitled(n);
    LongTitledFiles(n);
    LongTitledNames(n);
    EmptyFilesTotal(files);
    WithinTotalFits(sha, files);
    SameLengthNoConflicts(files, TITLE_LENGTH);
  }

  lemma LongTitledNames(n: nat)
    requires n <= MANY_TITLES
    ensures |LongTitled(n)| == n
    ensures forall t, name | t in LongTitled(n) && name in Split(t, '/') :: |name| == NAME_LENGTH
  {
    hide ValidFile, LongTitle, LongTitles, Split;
    LongTitlesCounted(n);
    assert LongTitled(n).Keys == LongTitles(n) && |LongTitled(n)| == |LongTitled(n).Keys|;
    forall t | t in LongTitled(n) ensures forall name | name in Split(t, '/') :: |name| == NAME_LENGTH {
      LongTitleValid(t, n);
    }
  }

  /** A published manifest can outgrow its reader: whatever the encoding, as long as it spells the
      titles out, 4,300 empty files, each three directories deep under names of 250 characters, can be
      published, and then every command is refused, previews included. */
  lemma ManifestOutgrowsReader(sha: Digester, manifestBytes: Encoding)
    requires forall m :: manifestBytes(m) >= TitleChars(m.layers)
    ensures var files := LongTitled(MANY_TITLES);
      && |files| == MANY_TITLES && (forall t, name | t in files && name in Split(t, '/') :: |name| == NAME_LENGTH)
      && Publishable(sha, files) && Published(sha, ManifestOf(sha, files))
      && !Loadable(sha, manifestBytes, files)
      && forall c :: Decide(sha, manifestBytes, files, c).Err?
  {
    hide LongTitle, LongTitles, LongTitled, Publishable, NoConflicts, Published, ManifestOf, Decide, TitleChars;
    var files := LongTitled(MANY_TITLES);
    LongTitledPublishable(sha, MANY_TITLES);
    LongTitledNames(MANY_TITLES);
    PublishableIsPublished(sha, files);
    LongTitledChars(sha, MANY_TITLES);
    assert manifestBytes(ManifestOf(sha, files)) >= TITLE_LENGTH * MANY_TITLES > MAX_METADATA_BYTES;
    PublishableNonEmpty(sha, files);
    forall c ensures Decide(sha, manifestBytes, files, c).Err? {
      UnloadableRefused(sha, manifestBytes, files, c);
    }
  }

  lemma PublishableNonEmpty(sha: Digester, files: Files)
    requires Publishable(sha, files)
    ensures files != map[]
  {
  }

  lemma UnloadableRefused(sha: Digester, manifestBytes: Encoding, files: Files, command: Command)
    requires !Loadable(sha, manifestBytes, files)
    ensures Decide(sha, manifestBytes, files, command).Err?
  {
    hide Loadable, CheckArguments;
  }
}
