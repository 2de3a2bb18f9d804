/** Relative paths: the spelling rules for titles and request paths, and their structure. */
module Paths {
  import opened Wrappers
  import opened Text

  const MAX_PATH_BYTES := 4096
  const MAX_PATH_SEGMENTS := 128

  datatype PathError = Invalid | Duplicate | Collision | DirectoryNeedsTrailingSlash

  predicate IsAlphanumeric(c: char) {
    '0' <= c <= '9' || 'a' <= c <= 'z' || 'A' <= c <= 'Z'
  }

  predicate IsSafePathChar(c: char) {
    IsAlphanumeric(c)
    || c in {'/', '-', '.', '_', '~', '!', '$', '&', '\'', '(', ')', '*', '+', ',', '=', ':', '@'}
  }

  predicate IsDirectory(path: string) {
    EndsWith(path, "/")
  }

  /** The components without the empty one after an optional trailing slash. */
  function Components(path: string): seq<string> {
    var segments := Split(path, '/');
    if IsDirectory(path) then segments[..|segments| - 1] else segments
  }

  predicate IsPlainSegment(segment: string) {
    segment != "" && segment != "." && segment != ".."
  }

  /** What `RelativePath::parse` accepts. */
  predicate ValidRelative(value: string) {
    && 0 < |value| <= MAX_PATH_BYTES
    && value[0] != '/'
    && (forall c | c in value :: IsSafePathChar(c))
    && 0 < |Components(value)| <= MAX_PATH_SEGMENTS
    && (forall segment | segment in Components(value) :: IsPlainSegment(segment))
  }

  function ParseRelative(value: string): Result<string, PathError> {
    if ValidRelative(value) then Ok(value) else Err(Invalid)
  }

  /** The paths visible objects may have. */
  predicate ValidFile(path: string) {
    ValidRelative(path) && !IsDirectory(path)
  }

  /** The paths that can be listed: the root, or a relative path with a trailing slash. */
  predicate ValidDirectory(path: string) {
    path == "" || (ValidRelative(path) && IsDirectory(path))
  }

  /** `parse_request_path`: an origin-form target to a relative path; the root is empty. */
  function ParseRequestPath(target: string): Result<string, PathError> {
    if target == "" || target[0] != '/' || (exists c | c in target :: !IsSafePathChar(c)) then Err(Invalid)
    else if "//" <= target then Err(Invalid)
    else if target[1..] == "" then Ok("")
    else ParseRelative(target[1..])
  }

  function TrimSlashes(s: string): (t: string)
    ensures s == "" || s[|s| - 1] != '/' ==> t == s
  {
    if s != "" && s[|s| - 1] == '/' then TrimSlashes(s[..|s| - 1]) else s
  }

  /** `parent_directory`: everything up to and including the last slash before the final name. */
  function ParentDirectory(directory: string): string {
    var bare := TrimSlashes(directory);
    bare[..|bare| - |LastSegment(bare)|]
  }

  function LastSegment(s: string): (t: string)
    ensures |t| <= |s| && s[|s| - |t|..] == t
    ensures '/' !in t
    ensures |t| < |s| ==> s[|s| - |t| - 1] == '/'
  {
    if s == "" || s[|s| - 1] == '/' then "" else
      var t := LastSegment(s[..|s| - 1]);
      assert s == s[..|s| - 1] + [s[|s| - 1]];
      t + [s[|s| - 1]]
  }

  function FirstSegment(s: string): string {
    s[..IndexOf(s, '/')]
  }

  /** A file at `a` would make `b` unreachable: `b` lies strictly below it. */
  predicate Ancestor(a: string, b: string) {
    a + "/" <= b
  }

  lemma {:induction false} LastSegmentConcat(head: string, name: string)
    requires '/' !in name
    requires head == "" || head[|head| - 1] == '/'
    ensures LastSegment(head + name) == name
  {
    hide LastSegment;
    if name == "" {
      EmptyLastSegment(head);
      assert head + name == head;
    } else {
      var n := |name| - 1;
      var shorter := head + name[..n];
      NotLast(name);
      LastSegmentConcat(head, name[..n]);
      LastSegmentSnoc(shorter, name[n]);
      assert head + name == shorter + [name[n]] && name[..n] + [name[n]] == name;
    }
  }

  lemma NotLast(name: string)
    requires name != "" && '/' !in name
    ensures name[|name| - 1] != '/' && '/' !in name[..|name| - 1]
  {
  }

  lemma EmptyLastSegment(head: string)
    requires head == "" || head[|head| - 1] == '/'
    ensures LastSegment(head) == ""
  {
  }

  lemma LastSegmentSnoc(s: string, c: char)
    requires c != '/'
    ensures LastSegment(s + [c]) == LastSegment(s) + [c]
  {
    assert (s + [c])[..|s|] == s;
  }

  /** A file path is a join of one to 128 plain segments. */
  lemma {:induction false} FileSegments(path: string)
    requires ValidFile(path)
    ensures Components(path) == Split(path, '/')
    ensures path[|path| - 1] != '/'
    ensures Join(Split(path, '/'), '/') == path
  {
    JoinOfSplit(path, '/');
    assert path[|path| - 1..] == [path[|path| - 1]];
  }

  lemma {:induction false} JoinEnd(parts: seq<string>)
    requires parts != [] && parts[|parts| - 1] != "" && '/' !in parts[|parts| - 1]
    ensures Join(parts, '/') != ""
    ensures Join(parts, '/')[|Join(parts, '/')| - 1] != '/'
  {
    if |parts| > 1 {
      JoinEnd(parts[1..]);
    } else {
      assert parts[0][|parts[0]| - 1] in parts[0];
    }
  }

  /** A prefix of a file path that ends in a slash is a directory path within the limits. */
  lemma {:induction false} PrefixIsDirectory(path: string, directory: string)
    requires ValidFile(path) && directory <= path && IsDirectory(directory)
    ensures ValidDirectory(directory)
    ensures |directory| < |path|
    ensures Components(directory) < Split(path, '/')
  {
    hide Split, IsSafePathChar, IsPlainSegment;
    FileSegments(path);
    PrefixComponents(path, directory);
    assert forall segment | segment in Components(directory) :: segment in Split(path, '/');
    forall c | c in directory ensures IsSafePathChar(c) {
      assert c in path;
    }
    assert directory[0] == path[0];
  }

  lemma PrefixComponents(path: string, directory: string)
    requires directory <= path && IsDirectory(directory) && path != "" && path[|path| - 1] != '/'
    ensures |directory| < |path|
    ensures 0 < |Components(directory)| && Components(directory) < Split(path, '/')
  {
    hide Split;
    var bare := directory[..|directory| - 1];
    var rest := path[|directory|..];
    assert directory[|directory| - 1] == '/' == path[|directory| - 1];
    assert directory == bare + ['/'] + "";
    assert path == bare + ['/'] + rest;
    SplitAppend(bare, '/', rest);
    SplitAppend(bare, '/', "");
    SplitNothing();
    assert Components(directory) == Split(bare, '/');
  }

  lemma SplitNothing()
    ensures Split("", '/') == [""]
  {
  }

  /** The last component of a path below a directory. */
  lemma {:induction false} RemainderSegments(path: string, directory: string)
    requires ValidFile(path) && ValidDirectory(directory) && directory <= path
    ensures path[|directory|..] != ""
    ensures forall segment | segment in Split(path[|directory|..], '/') :: IsPlainSegment(segment)
    ensures FirstSegment(path[|directory|..]) in Split(path[|directory|..], '/')
  {
    hide Split, IsSafePathChar, IsPlainSegment;
    FileSegments(path);
    var rest := path[|directory|..];
    if directory != "" {
      PrefixIsDirectory(path, directory);
      var bare := directory[..|directory| - 1];
      assert directory[|directory| - 1] == '/' == path[|directory| - 1];
      assert path == bare + ['/'] + rest;
      SplitAppend(bare, '/', rest);
    } else {
      assert rest == path;
    }
    FirstSegmentSplit(rest);
  }

  lemma FirstSegmentSplit(s: string)
    ensures FirstSegment(s) in Split(s, '/')
  {
    if IndexOf(s, '/') == |s| {
      assert s[..|s|] == s;
    }
  }
}
