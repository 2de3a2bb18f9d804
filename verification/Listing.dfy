/** Directory listings synthesized from an index, and what a crawl by listings visits. */
module Listing {
  import opened Wrappers
  import opened Text
  import opened Orders
  import opened Paths
  import opened Autoindex

  // ---- The listing as a map from names to entries ----

  /** The objects at or below a directory. */
  function Under(objects: Objects, directory: string): set<VisibleObject> {
    set p | p in objects && directory <= p :: objects[p]
  }

  function NameIn(directory: string, path: string): string
    requires directory <= path
  {
    FirstSegment(path[|directory|..])
  }

  function ChildNames(objects: Objects, directory: string): set<string> {
    set p | p in objects && directory <= p :: NameIn(directory, p)
  }

  function EntryNamed(objects: Objects, directory: string, name: string): DirectoryEntry {
    if directory + name in objects then File(objects[directory + name]) else Directory(directory + name + "/")
  }

  function Entries(objects: Objects, directory: string): map<string, DirectoryEntry> {
    map name | name in ChildNames(objects, directory) :: EntryNamed(objects, directory, name)
  }

  function EntriesInOrder(entries: map<string, DirectoryEntry>): (r: seq<DirectoryEntry>)
    ensures |r| == |entries|
  {
    TextStrictTotal();
    var names := InOrder(TextLess, entries.Keys);
    assert forall i | 0 <= i < |names| :: names[i] in names;
    seq(|names|, i requires 0 <= i < |names| => entries[names[i]])
  }

  /** The direct children of a directory in name order; the error cases are the invalid and
      the unslashed spellings. An absent directory lists as empty. */
  function ChildrenOf(objects: Objects, directory: string): Result<seq<DirectoryEntry>, PathError> {
    if directory != "" && !ValidRelative(directory) then Err(Invalid)
    else if directory != "" && !IsDirectory(directory) then Err(DirectoryNeedsTrailingSlash)
    else Ok(EntriesInOrder(Entries(objects, directory)))
  }

  function HasDirectory(objects: Objects, directory: string): Result<bool, PathError> {
    if directory == "" then Ok(true)
    else if !ValidRelative(directory) then Err(Invalid)
    else if !IsDirectory(directory) then Err(DirectoryNeedsTrailingSlash)
    else Ok(exists p | p in objects :: directory <= p)
  }

  // ---- `Index::children`, as the loop over the objects that fills the entries ----

  method Children(objects: Objects, directory: string) returns (r: Result<seq<DirectoryEntry>, PathError>)
    requires Projectable(objects)
    ensures r == ChildrenOf(objects, directory)
  {
    if directory != "" {
      var parsed := ParseRelative(directory);
      if parsed.Err? {
        return Err(parsed.error);
      }
      if !IsDirectory(directory) {
        return Err(DirectoryNeedsTrailingSlash);
      }
    }
    r := ListObjects(objects, directory);
  }

  method ListObjects(objects: Objects, directory: string) returns (r: Result<seq<DirectoryEntry>, PathError>)
    requires Projectable(objects) && ValidDirectory(directory)
    ensures r == Ok(EntriesInOrder(Entries(objects, directory)))
  {
    hide Projectable, ValidDirectory, Increasing, StrictTotal, NamesOf, AddedNames, EntryNamed, ChildNames;
    TextStrictTotal();
    var paths := InOrder(TextLess, objects.Keys);
    AllNames(objects, paths, directory);
    var entries: map<string, DirectoryEntry> := map[];
    var i := 0;
    while i < |paths|
      invariant 0 <= i <= |paths|
      invariant entries.Keys == NamesOf(paths[..i], directory)
      invariant forall name | name in entries :: entries[name] == EntryNamed(objects, directory, name)
    {
      assert paths[i] in objects.Keys;
      NamesSnoc(paths, i, directory);
      entries := AddEntry(objects, directory, paths[i], entries);
      i := i + 1;
    }
    assert entries == Entries(objects, directory);
    return Ok(EntriesInOrder(entries));
  }

  /** One round of the loop: a file directly in the directory, a subdirectory, or neither. */
  method AddEntry(objects: Objects, directory: string, path: string, entries: map<string, DirectoryEntry>)
    returns (r: map<string, DirectoryEntry>)
    requires Projectable(objects) && ValidDirectory(directory) && path in objects
    requires forall name | name in entries :: entries[name] == EntryNamed(objects, directory, name)
    ensures r.Keys == entries.Keys + AddedNames(directory, path)
    ensures forall name | name in r :: r[name] == EntryNamed(objects, directory, name)
  {
    hide Projectable, ValidDirectory, NameIn, EntryNamed, TrimSlashes, IndexOf, AddedNames;
    NameEntry(objects, path, directory);
    r := entries;
    if directory <= path && path != directory {
      ghost var n := NameIn(directory, path);
      var remainder := TrimSlashes(path[|directory|..]);
      var slash := IndexOf(remainder, '/');
      if slash == |remainder| {
        r := Put(entries, remainder, File(objects[path]));
      } else {
        var name, rest := remainder[..slash], remainder[slash + 1..];
        if name != "" && rest != "" && name !in entries {
          r := Put(entries, name, Directory(directory + name + "/"));
        } else {
          assert entries.Keys + {n} == entries.Keys;
        }
      }
    }
  }

  function Put<K, V>(m: map<K, V>, k: K, v: V): (r: map<K, V>)
    ensures r.Keys == m.Keys + {k}
    ensures r[k] == v && forall x | x in m && x != k :: r[x] == m[x]
  {
    m[k := v]
  }

  function AddedNames(directory: string, path: string): set<string> {
    if directory <= path then {NameIn(directory, path)} else {}
  }

  function NamesOf(paths: seq<string>, directory: string): set<string> {
    set p | p in paths && directory <= p :: NameIn(directory, p)
  }

  lemma AllNames(objects: Objects, paths: seq<string>, directory: string)
    requires forall p :: p in paths <==> p in objects.Keys
    ensures NamesOf([], directory) == {}
    ensures NamesOf(paths[..|paths|], directory) == ChildNames(objects, directory)
  {
    assert paths[..|paths|] == paths;
  }

  lemma NamesSnoc(paths: seq<string>, i: nat, directory: string)
    requires i < |paths|
    ensures NamesOf(paths[..i + 1], directory) == NamesOf(paths[..i], directory) + AddedNames(directory, paths[i])
  {
    var init, path, all := paths[..i], paths[i], paths[..i + 1];
    hide NameIn;
    TakeSnoc(paths, i);
    assert path in all;
    assert forall p | p in init :: p in all;
    assert forall p | p in all :: p in init || p == path;
  }

  /** The first name of a path below a directory: the path ends there, or continues below it. */
  lemma NameShape(path: string, directory: string)
    requires ValidFile(path) && ValidDirectory(directory) && directory <= path
    ensures TrimSlashes(path[|directory|..]) == path[|directory|..]
    ensures NameIn(directory, path) == path[|directory|..][..IndexOf(path[|directory|..], '/')]
    ensures IsPlainSegment(NameIn(directory, path)) && '/' !in NameIn(directory, path)
    ensures IndexOf(path[|directory|..], '/') == |path[|directory|..]| ==>
      NameIn(directory, path) == path[|directory|..] && directory + NameIn(directory, path) == path
    ensures IndexOf(path[|directory|..], '/') < |path[|directory|..]| ==>
      path[|directory|..][IndexOf(path[|directory|..], '/') + 1..] != ""
        && Ancestor(directory + NameIn(directory, path), path)
  {
    hide Split, ValidRelative, IsPlainSegment, TrimSlashes;
    RemainderSegments(path, directory);
    FileSegments(path);
    SliceShape(path, directory, path[|directory|..], IndexOf(path[|directory|..], '/'));
  }

  lemma SliceShape(path: string, directory: string, remainder: string, slash: nat)
    requires path == directory + remainder && remainder != "" && path[|path| - 1] != '/'
    requires slash <= |remainder| && (slash < |remainder| ==> remainder[slash] == '/')
    ensures remainder[|remainder| - 1] != '/'
    ensures slash == |remainder| ==> remainder[..slash] == remainder
    ensures slash < |remainder| ==>
      remainder[slash + 1..] != "" && directory + remainder[..slash] + "/" <= path
  {
    assert path[|path| - 1] == remainder[|remainder| - 1];
  }

  /** In a projectable index the first name decides between a file and a directory entry. */
  lemma NameEntry(objects: Objects, path: string, directory: string)
    requires Projectable(objects) && ValidDirectory(directory) && path in objects
    ensures path != directory
    ensures AddedNames(directory, path) == if directory <= path then {NameIn(directory, path)} else {}
    ensures directory <= path ==>
      var remainder, n := path[|directory|..], NameIn(directory, path);
      var slash := IndexOf(remainder, '/');
      && TrimSlashes(remainder) == remainder
      && n == remainder[..slash]
      && n != ""
      && (slash == |remainder| ==> n == remainder && EntryNamed(objects, directory, n) == File(objects[path]))
      && (slash < |remainder| ==>
            remainder[slash + 1..] != "" && EntryNamed(objects, directory, n) == Directory(directory + n + "/"))
  {
    hide ValidRelative, Ancestor, IsPlainSegment;
    assert ValidFile(path);
    if directory <= path {
      NameShape(path, directory);
      PlainSegmentNonEmpty(NameIn(directory, path));
      var q := directory + NameIn(directory, path);
      if Ancestor(q, path) {
        AncestorLonger(q, path);
        assert Conflict(q, path);
      }
    }
  }

  lemma PlainSegmentNonEmpty(segment: string)
    requires IsPlainSegment(segment)
    ensures segment != ""
  {
  }

  lemma AncestorLonger(a: string, b: string)
    requires Ancestor(a, b)
    ensures |a| < |b|
  {
  }

  // ---- Crawling by listings ----

  ghost predicate Crawlable(directory: string, entry: DirectoryEntry) {
    entry.Directory? ==> ValidDirectory(entry.path) && |directory| < |entry.path|
  }

  /** The objects met by listing a directory and following every entry in order. */
  ghost function Crawl(objects: Objects, directory: string): seq<VisibleObject>
    requires Projectable(objects) && ValidDirectory(directory)
    decreases MAX_PATH_BYTES - |directory|, 1, 0
  {
    ChildrenAreNamed(objects, directory);
    CrawlEntries(objects, directory, ChildrenOf(objects, directory).value)
  }

  ghost function CrawlEntries(objects: Objects, directory: string, entries: seq<DirectoryEntry>): seq<VisibleObject>
    requires Projectable(objects) && ValidDirectory(directory)
    requires forall entry | entry in entries :: Crawlable(directory, entry)
    decreases MAX_PATH_BYTES - |directory|, 0, |entries|
  {
    if entries == [] then [] else
      assert Crawlable(directory, entries[0]);
      (match entries[0]
       case File(item) => [item]
       case Directory(path) => Crawl(objects, path))
      + CrawlEntries(objects, directory, entries[1..])
  }

  function EntriesNamed(objects: Objects, directory: string, names: seq<string>): (entries: seq<DirectoryEntry>)
    ensures |entries| == |names|
    ensures forall i | 0 <= i < |names| :: entries[i] == EntryNamed(objects, directory, names[i])
  {
    seq(|names|, i requires 0 <= i < |names| => EntryNamed(objects, directory, names[i]))
  }

  ghost predicate DistinctNames(names: seq<string>) {
    forall i, j | 0 <= i < j < |names| :: names[i] != names[j]
  }

  /** The listing is the named entries of the child names, each once; all of them can be crawled. */
  lemma ChildrenAreNamed(objects: Objects, directory: string)
    requires Projectable(objects) && ValidDirectory(directory)
    ensures ChildrenOf(objects, directory).Ok?
    ensures var names := ChildNamesInOrder(objects, directory);
      && ChildrenOf(objects, directory).value == EntriesNamed(objects, directory, names)
      && DistinctNames(names) && (forall i, j | 0 <= i < j < |names| :: TextLess(names[i], names[j]))
      && (forall n :: n in names <==> n in ChildNames(objects, directory))
    ensures forall entry | entry in ChildrenOf(objects, directory).value :: Crawlable(directory, entry)
  {
    hide Projectable, ValidRelative, ChildNames, EntryNamed, StrictTotal, Crawlable;
    TextStrictTotal();
    var names := ChildNamesInOrder(objects, directory);
    assert Entries(objects, directory).Keys == ChildNames(objects, directory);
    forall i | 0 <= i < |names| ensures names[i] in ChildNames(objects, directory) {
      assert names[i] in names;
    }
    assert ChildrenOf(objects, directory).value == EntriesNamed(objects, directory, names);
    IncreasingDistinct(names);
    forall entry | entry in ChildrenOf(objects, directory).value ensures Crawlable(directory, entry) {
      var i :| 0 <= i < |names| && entry == EntriesNamed(objects, directory, names)[i];
      EntryCrawlable(objects, directory, names[i]);
    }
  }

  ghost function ChildNamesInOrder(objects: Objects, directory: string): seq<string> {
    TextStrictTotal();
    InOrder(TextLess, ChildNames(objects, directory))
  }

  lemma IncreasingDistinct(names: seq<string>)
    requires Increasing(TextLess, names)
    ensures DistinctNames(names)
  {
    hide TextLess;
    forall i, j | 0 <= i < j < |names| ensures names[i] != names[j] {
      assert TextLess(names[i], names[j]);
      TextIrreflexive(names[i]);
    }
  }

  lemma TextIrreflexive(s: string)
    ensures !TextLess(s, s)
  {
    LexIrreflexive(CharLess, s);
  }

  /** The objects whose first name below a directory is one of the given names. */
  ghost function UnderNames(objects: Objects, directory: string, names: seq<string>): set<VisibleObject> {
    set p | p in objects && directory <= p && NameIn(directory, p) in names :: objects[p]
  }

  lemma NameDecides(path: string, directory: string, name: string)
    requires ValidFile(path) && ValidDirectory(directory) && directory <= path
    requires '/' !in name
    ensures NameIn(directory, path) == name <==> (path == directory + name || directory + name + "/" <= path)
  {
    hide ValidRelative, IsPlainSegment, TrimSlashes;
    NameShape(path, directory);
    var remainder := path[|directory|..];
    if path == directory + name {
      assert remainder == name;
      IndexOfAbsent(name, '/');
      assert name[..|name|] == name;
    } else if directory + name + "/" <= path {
      var tail := path[|directory + name + "/"|..];
      assert remainder == name + ['/'] + tail;
      IndexOfConcat(name, '/', tail);
    }
  }

  lemma NestedDirectory(path: string, directory: string, name: string)
    requires ValidFile(path) && directory + name + "/" <= path
    ensures ValidDirectory(directory + name + "/")
  {
    hide ValidRelative;
    assert (directory + name + "/")[|directory + name|..] == "/";
    PrefixIsDirectory(path, directory + name + "/");
  }

  /** Every path with a given first name is the file of that name, or lies in that directory. */
  lemma PathsNamed(objects: Objects, directory: string, name: string) returns (witnessPath: string)
    requires Projectable(objects) && ValidDirectory(directory) && name in ChildNames(objects, directory)
    ensures witnessPath in objects && directory <= witnessPath && NameIn(directory, witnessPath) == name
    ensures '/' !in name && name != ""
    ensures forall p | p in objects && directory <= p ::
      NameIn(directory, p) == name <==> (p == directory + name || directory + name + "/" <= p)
  {
    hide ValidRelative, NameIn, IsPlainSegment, TrimSlashes, Conflict, ValidDirectory;
    witnessPath :| witnessPath in objects && directory <= witnessPath && NameIn(directory, witnessPath) == name;
    assert ValidFile(witnessPath);
    NameShape(witnessPath, directory);
    PlainSegmentNonEmpty(name);
    forall p | p in objects && directory <= p
      ensures NameIn(directory, p) == name <==> (p == directory + name || directory + name + "/" <= p)
    {
      assert ValidFile(p);
      NameDecides(p, directory, name);
    }
  }

  lemma FileExcludesNested(objects: Objects, q: string, p: string)
    requires Projectable(objects) && q in objects && p in objects
    ensures !(q + "/" <= p)
  {
    hide ValidRelative;
    assert q != p ==> !Conflict(q, p);
  }

  lemma FileEntry(objects: Objects, directory: string, name: string)
    requires Projectable(objects) && ValidDirectory(directory) && name in ChildNames(objects, directory)
    requires directory + name in objects
    ensures UnderNames(objects, directory, [name]) == {objects[directory + name]}
  {
    hide Projectable, ValidDirectory, NameIn;
    var path := PathsNamed(objects, directory, name);
    var q := directory + name;
    assert directory <= q;
    forall p | p in objects && directory <= p ensures NameIn(directory, p) in [name] <==> p == q {
      FileExcludesNested(objects, q, p);
    }
  }

  lemma NestedEntry(objects: Objects, directory: string, name: string)
    requires Projectable(objects) && ValidDirectory(directory) && name in ChildNames(objects, directory)
    requires directory + name !in objects
    ensures ValidDirectory(directory + name + "/")
    ensures UnderNames(objects, directory, [name]) == Under(objects, directory + name + "/")
  {
    hide ValidRelative, ValidDirectory, NameIn, Conflict;
    var path := PathsNamed(objects, directory, name);
    assert ValidFile(path);
    NestedDirectory(path, directory, name);
    var d := directory + name + "/";
    forall p | p in objects ensures (directory <= p && NameIn(directory, p) in [name]) <==> d <= p {
      if d <= p {
        assert directory <= p;
      }
    }
  }

  lemma EntryCrawlable(objects: Objects, directory: string, name: string)
    requires Projectable(objects) && ValidDirectory(directory) && name in ChildNames(objects, directory)
    ensures Crawlable(directory, EntryNamed(objects, directory, name))
  {
    hide Projectable, ValidDirectory, ChildNames;
    if directory + name !in objects {
      NestedEntry(objects, directory, name);
    }
  }

  // ---- A crawl meets every object below the directory exactly once ----

  lemma MultisetOfUnion<T>(a: set<T>, b: set<T>)
    requires a !! b
    ensures multiset(a + b) == multiset(a) + multiset(b)
  {
  }

  lemma UnderNamesSplit(objects: Objects, directory: string, names: seq<string>)
    requires Projectable(objects) && names != [] && DistinctNames(names)
    ensures UnderNames(objects, directory, names) ==
      UnderNames(objects, directory, [names[0]]) + UnderNames(objects, directory, names[1..])
    ensures UnderNames(objects, directory, [names[0]]) !! UnderNames(objects, directory, names[1..])
  {
    hide ValidRelative, ValidFile, NameIn, Conflict;
    var a, b := UnderNames(objects, directory, [names[0]]), UnderNames(objects, directory, names[1..]);
    assert names == [names[0]] + names[1..];
    assert names[0] !in names[1..];
  }

  lemma DirectoryBound(directory: string)
    requires ValidDirectory(directory)
    ensures |directory| <= MAX_PATH_BYTES
  {
  }

  lemma {:induction false} CrawlNames(objects: Objects, directory: string, names: seq<string>)
    requires Projectable(objects) && ValidDirectory(directory)
    requires DistinctNames(names) && forall n | n in names :: n in ChildNames(objects, directory)
    requires forall entry | entry in EntriesNamed(objects, directory, names) :: Crawlable(directory, entry)
    ensures multiset(CrawlEntries(objects, directory, EntriesNamed(objects, directory, names)))
      == multiset(UnderNames(objects, directory, names))
    decreases MAX_PATH_BYTES - |directory|, 0, |names|
  {
    hide Projectable, ValidRelative, NameIn, ChildNames, Crawl;
    if names != [] {
      var entries := EntriesNamed(objects, directory, names);
      var name, rest := names[0], names[1..];
      assert entries[1..] == EntriesNamed(objects, directory, rest);
      assert name in names;
      CrawlNames(objects, directory, rest);
      UnderNamesSplit(objects, directory, names);
      MultisetOfUnion(UnderNames(objects, directory, [name]), UnderNames(objects, directory, rest));
      if directory + name in objects {
        FileEntry(objects, directory, name);
      } else {
        NestedEntry(objects, directory, name);
        DirectoryBound(directory + name + "/");
        CrawlVisitsUnder(objects, directory + name + "/");
      }
    }
  }

  lemma {:induction false} CrawlVisitsUnder(objects: Objects, directory: string)
    requires Projectable(objects) && ValidDirectory(directory)
    ensures multiset(Crawl(objects, directory)) == multiset(Under(objects, directory))
    decreases MAX_PATH_BYTES - |directory|, 1, 0
  {
    hide Projectable, ValidRelative, NameIn;
    ChildrenAreNamed(objects, directory);
    var names := ChildNamesInOrder(objects, directory);
    CrawlNames(objects, directory, names);
    assert UnderNames(objects, directory, names) == Under(objects, directory);
  }

  /** Crawling from the root visits every object of the index exactly once, and nothing else. */
  lemma CrawlVisitsEachObjectOnce(objects: Objects)
    requires Projectable(objects)
    ensures multiset(Crawl(objects, "")) == multiset(objects.Values)
  {
    hide Projectable, Crawl, Under;
    CrawlVisitsUnder(objects, "");
    AllUnderRoot(objects);
  }

  lemma AllUnderRoot(objects: Objects)
    ensures Under(objects, "") == objects.Values
  {
  }

  // ---- What every listed entry is ----

  /** A listed file is the object at that path, directly in the directory. A listed directory
      is a valid path within the limits, exists, and has the listing directory as its parent. */
  lemma ListedEntries(objects: Objects, directory: string, entry: DirectoryEntry)
    requires Projectable(objects) && ValidDirectory(directory)
    requires entry in ChildrenOf(objects, directory).value
    ensures entry.File? ==>
      && entry.item.path in objects && objects[entry.item.path] == entry.item
      && directory <= entry.item.path && '/' !in entry.item.path[|directory|..]
    ensures entry.Directory? ==>
      && ValidDirectory(entry.path) && entry.path != ""
      && HasDirectory(objects, entry.path) == Ok(true)
      && ParentDirectory(entry.path) == directory
  {
    hide Projectable, ValidRelative, NameIn, ChildNames, ParentDirectory;
    ChildrenAreNamed(objects, directory);
    var names := ChildNamesInOrder(objects, directory);
    var i :| 0 <= i < |names| && EntriesNamed(objects, directory, names)[i] == entry;
    var name := names[i];
    assert name in names;
    var path := PathsNamed(objects, directory, name);
    if directory + name in objects {
      ObjectPath(objects, directory + name);
      assert (directory + name)[|directory|..] == name;
    } else {
      NestedEntry(objects, directory, name);
      DirectoryRejoins(directory, name);
      assert directory + name + "/" <= path;
    }
  }

  lemma ObjectPath(objects: Objects, path: string)
    requires Projectable(objects) && path in objects
    ensures objects[path].path == path
  {
  }

  lemma DirectoryRejoins(directory: string, name: string)
    requires ValidDirectory(directory) && '/' !in name && name != "" && ValidDirectory(directory + name + "/")
    ensures IsDirectory(directory + name + "/") && directory + name + "/" != ""
    ensures ValidRelative(directory + name + "/")
    ensures ParentDirectory(directory + name + "/") == directory
  {
    hide ValidRelative, LastSegment;
    var d := directory + name + "/";
    assert d[|directory + name|..] == "/";
    assert d[..|d| - 1] == directory + name;
    assert (directory + name)[|directory + name| - 1] == name[|name| - 1] && name[|name| - 1] in name;
    assert TrimSlashes(d) == TrimSlashes(directory + name);
    assert TrimSlashes(directory + name) == directory + name;
    LastSegmentConcat(directory, name);
  }
}
