/** File trees read as maps from titles to bytes. */
module TitledTrees {
  import opened Wrappers
  import opened Text
  import opened Paths
  import opened Digests
  import opened FileTrees
  import Autoindex

  /** What a file system guarantees of the names in a directory. */
  predicate WellNamed(node: Node) {
    node.Directory? ==> forall k | k in node.entries :: IsName(k) && WellNamed(node.entries[k])
  }

  predicate IsName(k: string) {
    k != "" && '/' !in k
  }

  ghost predicate IsNames(path: Name) {
    forall k | k in path :: IsName(k)
  }

  function NameTitle(path: Name): string {
    Join(path, '/')
  }

  function TitleName(title: string): Name {
    Split(title, '/')
  }

  function TreeTitles(node: Node): set<string> {
    set p | p in FilePaths(node) :: NameTitle(p)
  }

  /** The tree as a map from slash-joined titles to bytes. */
  function TitledContents(node: Node): map<string, Content> {
    map t | t in TreeTitles(node) ::
      if Read(node, TitleName(t)).Some? then Read(node, TitleName(t)).value else []
  }

  lemma {:induction false} FilesWellNamed(node: Node, path: Name)
    requires WellNamed(node) && path in FilePaths(node)
    ensures IsNames(path)
    decreases |path|
  {
    if node.Directory? {
      var k, p :| k in node.entries && p in FilePaths(node.entries[k]) && path == [k] + p;
      assert path[1..] == p;
      FilesWellNamed(node.entries[k], path[1..]);
    }
  }

  lemma RootFilesNonEmpty(node: Node, path: Name)
    requires node.Directory? && path in FilePaths(node)
    ensures path != []
  {
  }

  lemma NameRoundTrip(path: Name)
    requires path != [] && IsNames(path)
    ensures TitleName(NameTitle(path)) == path
  {
    forall k | k in path ensures '/' !in k {
      assert IsName(k);
    }
    SplitOfJoin(path, '/');
  }

  lemma TitleRoundTrip(title: string)
    requires ValidFile(title)
    ensures NameTitle(TitleName(title)) == title
    ensures IsNames(TitleName(title)) && TitleName(title) != []
  {
    FileSegments(title);
    forall k | k in TitleName(title) ensures IsName(k) {
      assert IsPlainSegment(k);
    }
  }

  /** A title read in the map is the file read in the tree. */
  lemma TitledRead(node: Node, path: Name)
    requires node.Directory? && WellNamed(node) && path in FilePaths(node)
    ensures NameTitle(path) in TitledContents(node)
    ensures Some(TitledContents(node)[NameTitle(path)]) == Read(node, path)
    ensures TitleName(NameTitle(path)) == path
  {
    hide Split, Join, Read, FilePaths, WellNamed;
    RootFilesNonEmpty(node, path);
    FilesWellNamed(node, path);
    NameRoundTrip(path);
    PathsRead(node, path);
  }

  lemma TitleIsFile(node: Node, title: string)
    requires node.Directory? && WellNamed(node) && title in TitledContents(node)
    ensures TitleName(title) in FilePaths(node) && NameTitle(TitleName(title)) == title
    ensures TitleName(title) != [] && IsNames(TitleName(title))
    ensures Read(node, TitleName(title)) == Some(TitledContents(node)[title])
  {
    hide Split, Join, Read, FilePaths, WellNamed;
    var p :| p in FilePaths(node) && NameTitle(p) == title;
    RootFilesNonEmpty(node, p);
    FilesWellNamed(node, p);
    NameRoundTrip(p);
    PathsRead(node, p);
  }

  /** A title made of names never ends in a slash, so validity is validity as a file path. */
  lemma NameTitleIsNoDirectory(path: Name)
    requires path != [] && IsNames(path)
    ensures ValidRelative(NameTitle(path)) <==> ValidFile(NameTitle(path))
  {
    hide ValidRelative;
    assert path[|path| - 1] in path;
    JoinEnd(path);
    var t := NameTitle(path);
    assert t[|t| - 1..] == [t[|t| - 1]];
  }

  /** One title is an ancestor of another exactly when its components are a proper prefix. */
  lemma AncestorIsPrefix(p: Name, q: Name)
    requires p != [] && q != [] && IsNames(p) && IsNames(q)
    ensures Ancestor(NameTitle(p), NameTitle(q)) <==> p < q
  {
    var a, b := NameTitle(p), NameTitle(q);
    NameRoundTrip(p);
    NameRoundTrip(q);
    if Ancestor(a, b) {
      var rest := b[|a| + 1..];
      assert b == a + ['/'] + rest;
      SplitAppend(a, '/', rest);
    }
    if p < q {
      var rest := q[|p|..];
      assert q == p + rest;
      JoinAppend(p, rest, '/');
    }
  }

  /** No file of a tree lies below another. */
  lemma {:induction false} FilesPrefixFree(node: Node, p: Name, q: Name)
    requires p in FilePaths(node) && q in FilePaths(node)
    ensures !(p < q)
    decreases |p|
  {
    if p < q && node.Directory? {
      var k, r :| k in node.entries && r in FilePaths(node.entries[k]) && p == [k] + r;
      var l, s :| l in node.entries && s in FilePaths(node.entries[l]) && q == [l] + s;
      assert k == p[0] == q[0] == l;
      assert r == p[1..] && s == q[1..];
      FilesPrefixFree(node.entries[k], r, s);
    }
  }

  lemma TitlesConflictFree(node: Node, s: string, t: string)
    requires node.Directory? && WellNamed(node)
    requires s in TitledContents(node) && t in TitledContents(node) && s != t
    ensures !Autoindex.Conflict(s, t)
  {
    hide Split, Join, Read, FilePaths, WellNamed, TitledContents, Ancestor;
    TitleIsFile(node, s);
    TitleIsFile(node, t);
    var p, q := TitleName(s), TitleName(t);
    AncestorIsPrefix(p, q);
    AncestorIsPrefix(q, p);
    FilesPrefixFree(node, p, q);
    FilesPrefixFree(node, q, p);
  }

  // ---- Writing and removing by title ----

  lemma {:induction false} NewBranchNamed(path: Name, bytes: Content)
    requires IsNames(path)
    ensures WellNamed(NewBranch(path, bytes))
    decreases |path|
  {
    if path != [] {
      assert path[0] in path && forall k | k in path[1..] :: k in path;
      NewBranchNamed(path[1..], bytes);
    }
  }

  lemma {:induction false} WriteNamed(node: Node, path: Name, bytes: Content)
    requires WellNamed(node) && IsNames(path) && Write(node, path, bytes).Some?
    ensures WellNamed(Write(node, path, bytes).value)
    decreases |path|
  {
    if node.Directory? {
      assert path[0] in path && forall k | k in path[1..] :: k in path;
      if path[0] in node.entries {
        WriteNamed(node.entries[path[0]], path[1..], bytes);
      } else {
        NewBranchNamed(path[1..], bytes);
      }
    }
  }

  lemma {:induction false} RemoveNamed(node: Node, path: Name)
    requires WellNamed(node) && Remove(node, path).Some?
    ensures WellNamed(Remove(node, path).value)
    decreases |path|
  {
    if |path| > 1 {
      RemoveNamed(node.entries[path[0]], path[1..]);
    }
  }

  /** A staging area: a directory with file system names, no links, no stray empty directories. */
  ghost predicate Staged(node: Node) {
    node.Directory? && WellNamed(node) && Tidy(node)
  }

  /** In a staging area a write of a valid title succeeds exactly when no other title conflicts,
      and then sets exactly that title. */
  lemma StagedWrite(node: Node, title: string, bytes: Content)
    requires Staged(node) && ValidFile(title)
    ensures Write(node, TitleName(title), bytes).Some? <==>
      forall t | t in TitledContents(node) :: t == title || !Autoindex.Conflict(t, title)
    ensures Write(node, TitleName(title), bytes).Some? ==>
      var written := Write(node, TitleName(title), bytes).value;
      Staged(written) && TitledContents(written) == TitledContents(node)[title := bytes]
  {
    hide ValidRelative, Split, Join, Read, FilePaths, WellNamed, Tidy, Blocked, TitledContents;
    TitleRoundTrip(title);
    WriteSucceedsIff(node, TitleName(title), bytes);
    BlockedByTitle(node, title);
    if Write(node, TitleName(title), bytes).Some? {
      WriteNamed(node, TitleName(title), bytes);
      WriteTidy(node, TitleName(title), bytes);
      WriteIsDirectory(node, TitleName(title), bytes);
      WriteTitled(node, title, bytes);
    }
  }

  lemma WriteIsDirectory(node: Node, path: Name, bytes: Content)
    requires node.Directory? && Write(node, path, bytes).Some?
    ensures Write(node, path, bytes).value.Directory?
  {
  }

  lemma BlockedByTitle(node: Node, title: string)
    requires Staged(node) && ValidFile(title)
    ensures Blocked(node, TitleName(title)) <==>
      exists t | t in TitledContents(node) :: t != title && Autoindex.Conflict(t, title)
  {
    hide ValidRelative, Split, Join, Read, FilePaths, WellNamed, Tidy, TitledContents, Ancestor;
    TitleRoundTrip(title);
    var path := TitleName(title);
    forall q | q in FilePaths(node)
      ensures NameTitle(q) in TitledContents(node)
      ensures (Below(q, path) || Below(path, q)) <==> (NameTitle(q) != title && Autoindex.Conflict(NameTitle(q), title))
    {
      TitledRead(node, q);
      RootFilesNonEmpty(node, q);
      FilesWellNamed(node, q);
      AncestorIsPrefix(q, path);
      AncestorIsPrefix(path, q);
    }
    forall t | t in TitledContents(node) ensures TitleName(t) in FilePaths(node) && NameTitle(TitleName(t)) == t {
      TitleIsFile(node, t);
    }
  }

  lemma WriteTitled(node: Node, title: string, bytes: Content)
    requires Staged(node) && ValidFile(title) && Write(node, TitleName(title), bytes).Some?
    requires Staged(Write(node, TitleName(title), bytes).value)
    ensures TitledContents(Write(node, TitleName(title), bytes).value) == TitledContents(node)[title := bytes]
  {
    hide ValidRelative, Split, Join, Read, FilePaths, WellNamed, Tidy, TitledContents, Write;
    TitleRoundTrip(title);
    var path := TitleName(title);
    var written := Write(node, path, bytes).value;
    var before, after := TitledContents(node), TitledContents(written);
    forall t ensures t in after ==> (t == title || t in before) && after[t] == before[title := bytes][t] {
      if t in after {
        TitleIsFile(written, t);
        WriteReads(node, path, bytes, TitleName(t));
        PathsRead(node, TitleName(t));
        if TitleName(t) != path {
          TitledRead(node, TitleName(t));
        }
      }
    }
    forall t | t == title || t in before ensures t in after {
      if t != title {
        TitleIsFile(node, t);
      }
      WriteReads(node, path, bytes, TitleName(t));
      PathsRead(written, TitleName(t));
      TitledRead(written, TitleName(t));
    }
  }

  /** Removing a title that is there removes exactly that title. */
  lemma StagedRemove(node: Node, title: string)
    requires node.Directory? && WellNamed(node) && ValidFile(title) && title in TitledContents(node)
    ensures Remove(node, TitleName(title)).Some?
    ensures var removed := Remove(node, TitleName(title)).value;
      && removed.Directory? && WellNamed(removed)
      && TitledContents(removed) == TitledContents(node) - {title}
  {
    hide ValidRelative, Split, Join, Read, FilePaths, WellNamed, TitledContents;
    TitleRoundTrip(title);
    var path := TitleName(title);
    TitleIsFile(node, title);
    RemoveSucceedsIff(node, path);
    RemoveNamed(node, path);
    RemoveTitled(node, title);
  }

  lemma RemoveTitled(node: Node, title: string)
    requires node.Directory? && WellNamed(node) && ValidFile(title)
    requires Remove(node, TitleName(title)).Some?
    requires Remove(node, TitleName(title)).value.Directory? && WellNamed(Remove(node, TitleName(title)).value)
    ensures TitledContents(Remove(node, TitleName(title)).value) == TitledContents(node) - {title}
  {
    hide ValidRelative, Split, Join, Read, FilePaths, WellNamed, TitledContents, Remove;
    TitleRoundTrip(title);
    var path := TitleName(title);
    var removed := Remove(node, path).value;
    var before, after := TitledContents(node), TitledContents(removed);
    forall t | t in after ensures t in before && t != title && after[t] == before[t] {
      TitleIsFile(removed, t);
      RemoveReads(node, path, TitleName(t));
      PathsRead(node, TitleName(t));
      TitledRead(node, TitleName(t));
    }
    forall t | t in before && t != title ensures t in after {
      TitleIsFile(node, t);
      RemoveReads(node, path, TitleName(t));
      PathsRead(removed, TitleName(t));
      TitledRead(removed, TitleName(t));
    }
  }
}
