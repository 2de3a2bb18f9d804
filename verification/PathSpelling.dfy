/** The spellings of relative paths: names joined by slashes, with one slash after a directory. */
module PathSpelling {
  import opened Text
  import opened Paths

  /** A name of one path component: not empty, not a dot name, and of the characters that need no
      escaping in a URL path. */
  predicate PlainName(name: string) {
    && name != "" && name != "." && name != ".."
    && forall c | c in name ::
        'a' <= c <= 'z' || 'A' <= c <= 'Z' || '0' <= c <= '9' || c in "-._~!$&'()*+,=:@"
  }

  /** The text of a path with these components. */
  function PathText(names: seq<string>, directory: bool): string {
    Join(names, '/') + if directory then "/" else ""
  }

  ghost predicate SpellsPath(path: string, names: seq<string>, directory: bool) {
    && 0 < |names| <= 128 && |path| <= 4096
    && (forall name | name in names :: PlainName(name))
    && path == PathText(names, directory)
  }

  lemma SafeCharTells(c: char)
    ensures IsSafePathChar(c) <==>
      c == '/' || 'a' <= c <= 'z' || 'A' <= c <= 'Z' || '0' <= c <= '9' || c in "-._~!$&'()*+,=:@"
  {
  }

  lemma PlainNameTells(name: string)
    ensures PlainName(name) <==> IsPlainSegment(name) && '/' !in name && forall c | c in name :: IsSafePathChar(c)
  {
    hide IsSafePathChar;
    forall c: char ensures IsSafePathChar(c) <==>
      c == '/' || 'a' <= c <= 'z' || 'A' <= c <= 'Z' || '0' <= c <= '9' || c in "-._~!$&'()*+,=:@"
    {
      SafeCharTells(c);
    }
  }

  lemma PathParts(names: seq<string>, directory: bool)
    requires names != [] && forall name | name in names :: name != "" && '/' !in name
    ensures var path := PathText(names, directory);
      path != "" && path[0] != '/' && Components(path) == names && (IsDirectory(path) <==> directory)
  {
    hide Split, Join;
    assert names[0] in names && names[|names| - 1] in names && names[0][0] in names[0];
    SplitOfJoin(names, '/');
    JoinEnd(names);
    JoinBegins(names);
    var path, text := PathText(names, directory), Join(names, '/');
    assert path[0] == text[0] && path[|path| - 1..] == [path[|path| - 1]];
    if directory {
      assert path == text + ['/'] + "";
      SplitAppend(text, '/', "");
      SplitNothing();
    } else {
      assert path == text;
    }
  }

  lemma JoinBegins(names: seq<string>)
    requires names != [] && names[0] != ""
    ensures Join(names, '/') != "" && Join(names, '/')[0] == names[0][0]
  {
  }

  lemma {:induction false} JoinHasParts(names: seq<string>, name: string, c: char)
    requires name in names && c in name
    ensures c in Join(names, '/')
  {
    if |names| > 1 && name != names[0] {
      assert name in names[1..];
      JoinHasParts(names[1..], name, c);
    }
  }

  /** A path is valid exactly when it is spelled by at most 128 plain names, within 4,096 bytes. */
  lemma ValidRelativeIff(path: string)
    ensures ValidRelative(path) <==> exists names, directory :: SpellsPath(path, names, directory)
  {
    hide ValidRelative, SpellsPath;
    if ValidRelative(path) {
      ComponentsSpell(path);
    }
    forall names, directory | SpellsPath(path, names, directory) ensures ValidRelative(path) {
      SpelledValid(path, names, directory);
    }
  }

  lemma SpelledValid(path: string, names: seq<string>, directory: bool)
    requires SpellsPath(path, names, directory)
    ensures ValidRelative(path) && (IsDirectory(path) <==> directory)
  {
    hide Split, Join, IsPlainSegment, IsSafePathChar, PlainName, Components, IsDirectory;
    forall name | name in names
      ensures IsPlainSegment(name) && name != "" && '/' !in name && forall c | c in name :: IsSafePathChar(c)
    {
      PlainNameTells(name);
      PlainIsSome(name);
    }
    PathParts(names, directory);
    forall c | c in path ensures IsSafePathChar(c) {
      if c != '/' {
        JoinedChars(names, '/', c);
      }
      SafeCharTells(c);
    }
  }

  lemma PlainIsSome(name: string)
    requires IsPlainSegment(name)
    ensures name != ""
  {
  }

  lemma ComponentsSpell(path: string)
    requires ValidRelative(path)
    ensures SpellsPath(path, Components(path), path[|path| - 1] == '/')
  {
    hide Split, Join, IsPlainSegment, IsSafePathChar, PlainName;
    var names := Components(path);
    var directory := path[|path| - 1] == '/';
    ComponentsJoin(path);
    forall name | name in names ensures PlainName(name) {
      forall c | c in name ensures IsSafePathChar(c) {
        JoinHasParts(names, name, c);
      }
      assert name in Split(path, '/');
      PlainNameTells(name);
    }
  }

  lemma ComponentsJoin(path: string)
    requires path != ""
    ensures Components(path) != [] && path == PathText(Components(path), path[|path| - 1] == '/')
  {
    hide Split, Join;
    assert path[|path| - 1..] == [path[|path| - 1]];
    JoinOfSplit(path, '/');
    if path[|path| - 1] == '/' {
      var bare := path[..|path| - 1];
      assert path == bare + ['/'] + "";
      SplitAppend(bare, '/', "");
      SplitNothing();
      JoinOfSplit(bare, '/');
      assert Components(path) == Split(bare, '/');
    }
  }
}
