/** Staged file trees: what the publisher walks and the editor writes into. */
module FileTrees {
  import opened Wrappers
  import opened Digests
  import opened Orders

  type Name = seq<string>

  /** `Other` stands for a symbolic link or a special file. */
  datatype Node = File(bytes: Content) | Directory(entries: map<string, Node>) | Other

  /** The component paths of all files at or below a node. */
  function FilePaths(node: Node): set<Name> {
    match node
    case File(_) => {[]}
    case Other => {}
    case Directory(entries) => set k, p | k in entries && p in FilePaths(entries[k]) :: [k] + p
  }

  function Read(node: Node, path: Name): Option<Content>
    decreases |path|
  {
    match node
    case File(bytes) => if path == [] then Some(bytes) else None
    case Other => None
    case Directory(entries) =>
      if path != [] && path[0] in entries then Read(entries[path[0]], path[1..]) else None
  }

  /** The tree as a finite map from paths to bytes. */
  function Contents(node: Node): map<Name, Content> {
    map p | p in FilePaths(node) :: if Read(node, p).Some? then Read(node, p).value else []
  }

  lemma {:induction false} PathsRead(node: Node, path: Name)
    ensures path in FilePaths(node) <==> Read(node, path).Some?
    decreases |path|
  {
    match node
    case Directory(entries) =>
      if path != [] && path[0] in entries {
        PathsRead(entries[path[0]], path[1..]);
        assert path == [path[0]] + path[1..];
        forall k, p | k in entries && p in FilePaths(entries[k]) && [k] + p == path
          ensures k == path[0] && p == path[1..]
        {
          assert ([k] + p)[1..] == p;
        }
      }
    case _ =>
  }

  // ---- Writing: `create_dir_all` on the parent, then a file create or truncate ----

  function NewBranch(path: Name, bytes: Content): Node
    decreases |path|
  {
    if path == [] then File(bytes) else Directory(map[path[0] := NewBranch(path[1..], bytes)])
  }

  function Write(node: Node, path: Name, bytes: Content): Option<Node>
    decreases |path|
  {
    match node
    case Other => None
    case File(_) => if path == [] then Some(File(bytes)) else None
    case Directory(entries) =>
      if path == [] then None
      else if path[0] !in entries then Some(Directory(entries[path[0] := NewBranch(path[1..], bytes)]))
      else
        match Write(entries[path[0]], path[1..], bytes)
        case None => None
        case Some(child) => Some(Directory(entries[path[0] := child]))
  }

  /** `remove_file`: fails unless a file is there; emptied directories stay. */
  function Remove(node: Node, path: Name): Option<Node>
    decreases |path|
  {
    if path == [] then None else
      match node
      case Directory(entries) =>
        if path[0] !in entries then None
        else if |path| == 1 then
          if entries[path[0]].File? then Some(Directory(entries - {path[0]})) else None
        else
          (match Remove(entries[path[0]], path[1..])
           case None => None
           case Some(child) => Some(Directory(entries[path[0] := child])))
      case _ => None
  }

  /** No links or special files, and no directory without a file below it (except the root). */
  predicate Tidy(node: Node) {
    match node
    case File(_) => true
    case Other => false
    case Directory(entries) =>
      forall k | k in entries :: Tidy(entries[k]) && (entries[k].Directory? ==> entries[k].entries != map[])
  }

  /** One path lies strictly below the other. */
  predicate Below(a: Name, b: Name) {
    a < b
  }

  ghost predicate Blocked(node: Node, path: Name) {
    path == [] || exists q | q in FilePaths(node) :: Below(q, path) || Below(path, q)
  }

  lemma {:induction false} NewBranchReads(path: Name, bytes: Content, p: Name)
    ensures Read(NewBranch(path, bytes), p) == if p == path then Some(bytes) else None
    decreases |path|
  {
    if path != [] && p != [] {
      NewBranchReads(path[1..], bytes, p[1..]);
      assert path == [path[0]] + path[1..] && p == [p[0]] + p[1..];
    }
  }

  lemma {:induction false} NewBranchTidy(path: Name, bytes: Content)
    ensures Tidy(NewBranch(path, bytes))
    ensures NewBranch(path, bytes).Directory? ==> NewBranch(path, bytes).entries != map[]
    decreases |path|
  {
    if path != [] {
      NewBranchTidy(path[1..], bytes);
      assert path[0] in map[path[0] := NewBranch(path[1..], bytes)];
    }
  }

  /** A successful write changes exactly the one path. */
  lemma {:induction false} WriteReads(node: Node, path: Name, bytes: Content, p: Name)
    requires Write(node, path, bytes).Some?
    ensures Read(Write(node, path, bytes).value, p) == if p == path then Some(bytes) else Read(node, p)
    decreases |path|
  {
    if node.Directory? && p != [] {
      assert path == [path[0]] + path[1..] && p == [p[0]] + p[1..];
      if path[0] !in node.entries {
        NewBranchReads(path[1..], bytes, p[1..]);
      } else {
        WriteReads(node.entries[path[0]], path[1..], bytes, p[1..]);
      }
    }
  }

  lemma {:induction false} WriteTidy(node: Node, path: Name, bytes: Content)
    requires Tidy(node) && Write(node, path, bytes).Some?
    ensures Tidy(Write(node, path, bytes).value)
    ensures Write(node, path, bytes).value.Directory? ==>
      node.Directory? && Write(node, path, bytes).value.entries != map[]
    decreases |path|
  {
    if node.Directory? {
      var written := Write(node, path, bytes).value;
      assert path[0] in written.entries;
      if path[0] !in node.entries {
        NewBranchTidy(path[1..], bytes);
      } else {
        WriteTidy(node.entries[path[0]], path[1..], bytes);
      }
    }
  }

  lemma {:induction false} TidyHasFile(node: Node) returns (path: Name)
    requires Tidy(node) && (node.Directory? ==> node.entries != map[])
    ensures path in FilePaths(node)
  {
    match node
    case File(_) => path := [];
    case Directory(entries) =>
      var k :| k in entries;
      var rest := TidyHasFile(entries[k]);
      path := [k] + rest;
  }

  /** In a tidy tree a write below the root fails exactly when a file is in the way. */
  lemma {:induction false} WriteSucceedsIff(node: Node, path: Name, bytes: Content)
    requires Tidy(node)
    ensures node.Directory? ==> (Write(node, path, bytes).Some? <==> !Blocked(node, path))
    ensures node.File? ==> (Write(node, path, bytes).Some? <==> path == [])
    decreases |path|
  {
    if node.Directory? && path != [] {
      var entries := node.entries;
      assert path == [path[0]] + path[1..];
      if path[0] !in entries {
        forall q | q in FilePaths(node) ensures !Below(q, path) && !Below(path, q) {
          assert q[0] in entries;
        }
      } else {
        var child := entries[path[0]];
        WriteSucceedsIff(child, path[1..], bytes);
        BlockedChild(node, path);
        if child.Directory? && path[1..] == [] {
          var q := TidyHasFile(child);
          assert Below(path[1..], q);
        } else if child.File? {
          assert FilePaths(child) == {[]};
          assert path[1..] != [] ==> Below([], path[1..]);
        }
      }
    }
  }

  lemma BlockedChild(node: Node, path: Name)
    requires node.Directory? && path != [] && path[0] in node.entries
    ensures Blocked(node, path) <==>
      exists q | q in FilePaths(node.entries[path[0]]) :: Below(q, path[1..]) || Below(path[1..], q)
  {
    var child := node.entries[path[0]];
    forall q | q in FilePaths(child) && (Below(q, path[1..]) || Below(path[1..], q))
      ensures Blocked(node, path)
    {
      var whole := [path[0]] + q;
      assert whole in FilePaths(node);
      assert path == [path[0]] + path[1..];
      assert Below(whole, path) || Below(path, whole);
    }
    if Blocked(node, path) {
      var whole :| whole in FilePaths(node) && (Below(whole, path) || Below(path, whole));
      var k, q :| k in node.entries && q in FilePaths(node.entries[k]) && [k] + q == whole;
      assert k == whole[0] == path[0];
      assert q == whole[1..] && path == [path[0]] + path[1..];
      assert Below(q, path[1..]) || Below(path[1..], q);
    }
  }

  // ---- Removing ----

  lemma {:induction false} RemoveSucceedsIff(node: Node, path: Name)
    ensures Remove(node, path).Some? <==> path != [] && path in FilePaths(node)
    decreases |path|
  {
    PathsRead(node, path);
    if node.Directory? && path != [] && path[0] in node.entries {
      if |path| == 1 {
        assert path[1..] == [];
      } else {
        RemoveSucceedsIff(node.entries[path[0]], path[1..]);
        PathsRead(node.entries[path[0]], path[1..]);
      }
    }
  }

  /** A successful removal changes exactly the one path. */
  lemma {:induction false} RemoveReads(node: Node, path: Name, p: Name)
    requires Remove(node, path).Some?
    ensures Read(Remove(node, path).value, p) == if p == path then None else Read(node, p)
    decreases |path|
  {
    if p != [] {
      assert path == [path[0]] + path[1..] && p == [p[0]] + p[1..];
      if |path| == 1 {
        assert path[1..] == [];
      } else {
        RemoveReads(node.entries[path[0]], path[1..], p[1..]);
      }
    }
  }

  // ---- Walking ----

  /** No link or special file, and no directory deeper than `limit` levels below `depth`. */
  predicate Walkable(node: Node, depth: nat, limit: nat) {
    match node
    case File(_) => true
    case Other => false
    case Directory(entries) => depth <= limit && forall k | k in entries :: Walkable(entries[k], depth + 1, limit)
  }

  /** The files in walk order: depth first, the entries of a directory by name. */
  ghost function Walk(node: Node, prefix: Name): seq<Name>
    decreases node, 0
  {
    match node
    case File(_) => [prefix]
    case Other => []
    case Directory(entries) => WalkNames(node, SortedNames(entries), prefix)
  }

  ghost function WalkNames(node: Node, names: seq<string>, prefix: Name): seq<Name>
    requires node.Directory? && forall n | n in names :: n in node.entries
    decreases node, 0, |names|
  {
    if names == [] then [] else
      assert names[0] in names;
      Walk(node.entries[names[0]], prefix + [names[0]]) + WalkNames(node, names[1..], prefix)
  }

  function SortedNames(entries: map<string, Node>): (names: seq<string>)
    ensures forall n :: n in names <==> n in entries
    ensures Increasing(TextLess, names)
  {
    TextStrictTotal();
    InOrder(TextLess, entries.Keys)
  }

  /** The walk meets exactly the files of the tree. */
  lemma {:induction false} WalkMeetsFiles(node: Node, prefix: Name)
    ensures forall p :: p in Walk(node, prefix) <==> exists q | q in FilePaths(node) :: p == prefix + q
    decreases node, 0
  {
    match node
    case File(_) =>
      assert prefix + [] == prefix;
    case Other =>
    case Directory(entries) =>
      var names := SortedNames(entries);
      WalkNamesMeetFiles(node, names, prefix);
      forall p ensures p in Walk(node, prefix) <==> exists q | q in FilePaths(node) :: p == prefix + q {
        PrefixedFile(node, names, prefix, p);
      }
  }

  lemma PrefixedFile(node: Node, names: seq<string>, prefix: Name, p: Name)
    requires node.Directory? && forall n :: n in names <==> n in node.entries
    ensures (exists n, q | n in names && q in FilePaths(node.entries[n]) :: p == prefix + [n] + q)
      <==> exists r | r in FilePaths(node) :: p == prefix + r
  {
    if n, q :| n in names && q in FilePaths(node.entries[n]) && p == prefix + [n] + q {
      assert [n] + q in FilePaths(node) && p == prefix + ([n] + q);
    }
    if r :| r in FilePaths(node) && p == prefix + r {
      var n, q :| n in node.entries && q in FilePaths(node.entries[n]) && r == [n] + q;
      assert p == prefix + [n] + q;
    }
  }

  lemma {:induction false} WalkNamesMeetFiles(node: Node, names: seq<string>, prefix: Name)
    requires node.Directory? && forall n | n in names :: n in node.entries
    ensures forall p :: p in WalkNames(node, names, prefix) <==>
      exists n, q | n in names && q in FilePaths(node.entries[n]) :: p == prefix + [n] + q
    decreases node, 0, |names|
  {
    if names != [] {
      var n := names[0];
      assert n in names;
      WalkMeetsFiles(node.entries[n], prefix + [n]);
      WalkNamesMeetFiles(node, names[1..], prefix);
      assert forall m | m in names :: m == n || m in names[1..];
    }
  }

  lemma IncreasingConcat(a: seq<Name>, b: seq<Name>)
    requires Increasing(PathLess, a) && Increasing(PathLess, b)
    requires forall x, y | x in a && y in b :: PathLess(x, y)
    ensures Increasing(PathLess, a + b)
  {
    hide PathLess;
    assert forall i | 0 <= i < |a + b| :: (a + b)[i] == if i < |a| then a[i] else b[i - |a|];
  }

  /** The walk is already in component order, so the publisher's sort of it changes nothing. */
  lemma {:induction false} WalkIncreases(node: Node, prefix: Name)
    ensures Increasing(PathLess, Walk(node, prefix))
    decreases node, 0
  {
    match node
    case File(_) =>
    case Other =>
    case Directory(entries) => WalkNamesIncrease(node, SortedNames(entries), prefix);
  }

  lemma {:induction false} WalkNamesIncrease(node: Node, names: seq<string>, prefix: Name)
    requires node.Directory? && (forall n | n in names :: n in node.entries)
    requires Increasing(TextLess, names)
    ensures Increasing(PathLess, WalkNames(node, names, prefix))
    decreases node, 0, |names|
  {
    hide TextLess, PathLess;
    if names != [] {
      var n, rest := names[0], names[1..];
      assert n in names;
      var a, b := Walk(node.entries[n], prefix + [n]), WalkNames(node, rest, prefix);
      WalkIncreases(node.entries[n], prefix + [n]);
      WalkNamesIncrease(node, rest, prefix);
      WalkMeetsFiles(node.entries[n], prefix + [n]);
      WalkNamesMeetFiles(node, rest, prefix);
      forall x, y | x in a && y in b ensures PathLess(x, y) {
        var q :| q in FilePaths(node.entries[n]) && x == prefix + [n] + q;
        var m, r :| m in rest && r in FilePaths(node.entries[m]) && y == prefix + [m] + r;
        var k :| 0 <= k < |rest| && rest[k] == m;
        assert names[k + 1] == m && TextLess(n, m);
        OrderedByName(prefix, n, q, m, r);
      }
      IncreasingConcat(a, b);
    }
  }

  lemma OrderedByName(prefix: Name, n: string, q: Name, m: string, r: Name)
    requires TextLess(n, m)
    ensures PathLess(prefix + [n] + q, prefix + [m] + r)
  {
    hide TextLess;
    LexAfterPrefix(TextLess, prefix, n, q, m, r);
  }
}
