/** Rendered directory pages, the links a reader finds in them, and request resolution. */
module Pages {
  import opened Wrappers
  import opened Text
  import opened Paths
  import opened Autoindex
  import opened Listing

  // ---- Escaping ----

  function EscapeChar(c: char): string {
    match c
    case '&' => "&amp;"
    case '<' => "&lt;"
    case '>' => "&gt;"
    case '"' => "&quot;"
    case '\'' => "&#39;"
    case _ => [c]
  }

  function Escaped(s: string): string {
    if s == "" then "" else EscapeChar(s[0]) + Escaped(s[1..])
  }

  method EscapeHtml(value: string) returns (escaped: string)
    ensures escaped == Escaped(value)
  {
    hide EscapeChar, Escaped;
    escaped := "";
    var i := 0;
    EscapedFrom(value, 0);
    assert value[0..] == value && "" + Escaped(value) == Escaped(value);
    while i < |value|
      invariant 0 <= i <= |value|
      invariant escaped + Escaped(value[i..]) == Escaped(value)
    {
      EscapedFrom(value, i);
      assert escaped + (EscapeChar(value[i]) + Escaped(value[i + 1..])) ==
        escaped + EscapeChar(value[i]) + Escaped(value[i + 1..]);
      escaped := escaped + EscapeChar(value[i]);
      i := i + 1;
    }
    EscapedFrom(value, i);
  }

  lemma EscapedFrom(value: string, i: nat)
    requires i <= |value|
    ensures i == |value| ==> Escaped(value[i..]) == ""
    ensures i < |value| ==> Escaped(value[i..]) == EscapeChar(value[i]) + Escaped(value[i + 1..])
  {
    hide EscapeChar;
    if i < |value| {
      assert value[i..][1..] == value[i + 1..];
    }
  }

  // ---- The page ----

  function Label(entry: DirectoryEntry): string {
    match entry
    case Directory(path) => LastSegment(TrimSlashes(path)) + "/"
    case File(item) => LastSegment(item.path)
  }

  function EntryPath(entry: DirectoryEntry): string {
    match entry
    case Directory(path) => path
    case File(item) => item.path
  }

  function Opening(): string {
    "<!doctype html>" + "<html>" + "<head>" + "<meta charset=\"utf-8\">" + "<title>" + "Index of /"
  }
  function Heading(): string { "</title>" + "</head>" + "<body>" + "<h1>" + "Index of /" }
  function ListStart(): string { "</h1>" + "<ul>" }
  function Closing(): string { "</ul>" + "</body>" + "</html>" + "\n" }

  function LinkItem(href: string, caption: string): string {
    "<li>" + "<a href=\"" + Escaped(href) + "\"" + (">" + Escaped(caption) + "</a>" + "</li>")
  }

  function Items(entries: seq<DirectoryEntry>): string {
    if entries == [] then "" else
      LinkItem("/" + EntryPath(entries[0]), Label(entries[0])) + Items(entries[1..])
  }

  function ParentItem(directory: string): string {
    if directory == "" then "" else LinkItem("/" + ParentDirectory(directory), "../")
  }

  function Page(directory: string, entries: seq<DirectoryEntry>): string {
    Top(directory) + ParentItem(directory) + Items(entries) + Closing()
  }

  function Top(directory: string): string {
    Opening() + Escaped(directory) + Heading() + Escaped(directory) + ListStart()
  }

  method RenderDirectoryHtml(directory: string, entries: seq<DirectoryEntry>) returns (r: Result<string, PathError>)
    ensures r.Ok? <==> ValidDirectory(directory)
    ensures r.Ok? ==> r.value == Page(directory, entries)
    ensures r.Err? ==> r.error == if ValidRelative(directory) then DirectoryNeedsTrailingSlash else Invalid
  {
    if directory != "" {
      if ParseRelative(directory).Err? {
        return Err(Invalid);
      }
      if !IsDirectory(directory) {
        return Err(DirectoryNeedsTrailingSlash);
      }
    }
    var html := RenderPage(directory, entries);
    return Ok(html);
  }

  method RenderPage(directory: string, entries: seq<DirectoryEntry>) returns (html: string)
    ensures html == Page(directory, entries)
  {
    hide Escaped, LinkItem, Items, ParentDirectory, Opening, Heading, ListStart, Closing, EntryPath, Label;
    var shown := EscapeHtml(directory);
    html := Opening() + shown + Heading() + shown + ListStart();
    if directory != "" {
      var parent := EscapeHtml(ParentDirectory(directory));
      ParentSpelling(ParentDirectory(directory));
      html := html + ("<li>" + "<a href=\"" + ("/" + parent) + "\"" + (">" + "../" + "</a>" + "</li>"));
    } else {
      html := html + "";
    }
    ghost var head := html;
    assert head == Top(directory) + ParentItem(directory);
    var i := 0;
    while i < |entries|
      invariant 0 <= i <= |entries|
      invariant html + Items(entries[i..]) == head + Items(entries)
    {
      var href := EscapeHtml("/" + EntryPath(entries[i]));
      var caption := EscapeHtml(Label(entries[i]));
      ItemsStep(html, entries, i);
      ItemSpelling("/" + EntryPath(entries[i]), Label(entries[i]));
      html := html + ("<li>" + "<a href=\"" + href + "\"" + (">" + caption + "</a>" + "</li>"));
      i := i + 1;
    }
    ItemsDone(html, entries);
    html := html + Closing();
  }

  lemma ItemSpelling(href: string, caption: string)
    ensures LinkItem(href, caption) ==
      "<li>" + "<a href=\"" + Escaped(href) + "\"" + (">" + Escaped(caption) + "</a>" + "</li>")
  {
  }

  lemma ItemsStep(html: string, entries: seq<DirectoryEntry>, i: nat)
    requires i < |entries|
    ensures html + Items(entries[i..]) ==
      html + LinkItem("/" + EntryPath(entries[i]), Label(entries[i])) + Items(entries[i + 1..])
  {
    hide LinkItem, EntryPath, Label;
    assert entries[i..][1..] == entries[i + 1..];
  }

  lemma Reassociated(a: string, b: string, c: string, d: string)
    ensures a + b + c + d == a + (b + (c + d))
  {
  }

  lemma ItemsDone(html: string, entries: seq<DirectoryEntry>)
    ensures html + Items(entries[|entries|..]) == html
  {
  }

  lemma {:induction false} EscapedConcat(a: string, b: string)
    ensures Escaped(a + b) == Escaped(a) + Escaped(b)
  {
    if a == "" {
      assert a + b == b;
    } else {
      assert (a + b)[1..] == a[1..] + b;
      EscapedConcat(a[1..], b);
    }
  }

  lemma {:induction false} EscapedPlain(s: string)
    requires forall c | c in s :: c == '.' || c == '/'
    ensures Escaped(s) == s
  {
    hide EscapeChar;
    if s != "" {
      assert s[0] in s && forall c | c in s[1..] :: c in s;
      EscapedPlain(s[1..]);
      PlainChar(s[0]);
      assert [s[0]] + s[1..] == s;
    }
  }

  lemma PlainChar(c: char)
    requires c == '.' || c == '/'
    ensures EscapeChar(c) == [c]
  {
  }

  lemma ParentSpelling(parent: string)
    ensures LinkItem("/" + parent, "../") ==
      "<li>" + "<a href=\"" + ("/" + Escaped(parent)) + "\"" + (">" + "../" + "</a>" + "</li>")
  {
    hide Escaped;
    EscapedConcat("/", parent);
    EscapedPlain("/");
    EscapedPlain("../");
  }

  // ---- Reading the links back ----

  function Unescaped(s: string): string {
    if s == "" then ""
    else if "&amp;" <= s then "&" + Unescaped(s[5..])
    else if "&lt;" <= s then "<" + Unescaped(s[4..])
    else if "&gt;" <= s then ">" + Unescaped(s[4..])
    else if "&quot;" <= s then "\"" + Unescaped(s[6..])
    else if "&#39;" <= s then "'" + Unescaped(s[5..])
    else [s[0]] + Unescaped(s[1..])
  }

  const ANCHOR := "<a href=\""

  /** Every `href` attribute of an anchor, in order, unescaped. */
  function Hrefs(html: string): seq<string>
    decreases |html|
  {
    if html == "" then []
    else if ANCHOR <= html then
      var rest := html[|ANCHOR|..];
      var end := IndexOf(rest, '"');
      if end == |rest| then [] else [Unescaped(rest[..end])] + Hrefs(rest[end + 1..])
    else Hrefs(html[1..])
  }

  lemma {:induction false} UnescapedEscaped(s: string)
    ensures Unescaped(Escaped(s)) == s
  {
    if s != "" {
      UnescapedEscaped(s[1..]);
      UnescapedChar(s[0], Escaped(s[1..]));
      assert s == [s[0]] + s[1..];
    }
  }

  lemma UnescapedChar(c: char, rest: string)
    ensures Unescaped(EscapeChar(c) + rest) == [c] + Unescaped(rest)
  {
    var e := EscapeChar(c);
    var s := e + rest;
    assert s[|e|..] == rest;
    assert s[0] == e[0];
    match c
    case '&' => assert "&amp;" <= s;
    case '<' => assert "&lt;" <= s && s[1] == 'l';
    case '>' => assert "&gt;" <= s && s[1] == 'g';
    case '"' => assert "&quot;" <= s && s[1] == 'q';
    case '\'' => assert "&#39;" <= s && s[1] == '#';
    case _ =>
  }

  lemma {:induction false} EscapedSafe(s: string)
    ensures '"' !in Escaped(s) && '<' !in Escaped(s)
  {
    if s != "" {
      EscapedSafe(s[1..]);
    }
  }

  /** Text in which no anchor can start, whatever follows. */
  ghost predicate NoAnchor(text: string) {
    forall i | 0 <= i < |text| :: text[i] == '<' ==> i + 1 < |text| && text[i + 1] != 'a'
  }

  /** Where no anchor starts the scan goes on to the next character. */
  lemma SkipOne(s: string)
    requires s != "" && (s[0] == '<' ==> |s| > 1 && s[1] != 'a')
    ensures Hrefs(s) == Hrefs(s[1..])
  {
    hide Unescaped;
    assert ANCHOR[0] == '<' && ANCHOR[1] == 'a';
  }

  lemma NoAnchorTail(text: string)
    requires NoAnchor(text) && text != ""
    ensures NoAnchor(text[1..])
    ensures text[0] == '<' ==> |text| > 1 && text[1] != 'a'
  {
    forall i | 0 <= i < |text[1..]| ensures text[1..][i] == text[i + 1] {
    }
  }

  lemma {:induction false} SkipText(text: string, rest: string)
    requires NoAnchor(text)
    ensures Hrefs(text + rest) == Hrefs(rest)
  {
    hide Hrefs, NoAnchor;
    if text == "" {
      assert text + rest == rest;
    } else {
      NoAnchorTail(text);
      SkipText(text[1..], rest);
      assert (text + rest)[1..] == text[1..] + rest;
      SkipOne(text + rest);
    }
  }

  lemma NoAnchorConcat(a: string, b: string)
    requires NoAnchor(a) && NoAnchor(b)
    ensures NoAnchor(a + b)
  {
  }

  lemma NoAnchorTag(tag: string)
    requires |tag| > 1 && tag[0] == '<' && tag[1] != 'a' && '<' !in tag[1..]
    ensures NoAnchor(tag)
  {
    forall i | 0 <= i < |tag| ensures tag[i] == '<' ==> i == 0 {
      if i > 0 { assert tag[1..][i - 1] == tag[i]; }
    }
  }

  lemma NoAnchorText(text: string)
    requires '<' !in text
    ensures NoAnchor(text)
  {
  }

  lemma AnchorStep(target: string, rest: string)
    requires '"' !in target
    ensures Hrefs(ANCHOR + (target + "\"" + rest)) == [Unescaped(target)] + Hrefs(rest)
  {
    hide Unescaped;
    var after := target + "\"" + rest;
    assert (ANCHOR + after)[|ANCHOR|..] == after;
    IndexOfConcat(target, '"', rest);
    assert after[..|target|] == target && after[|target| + 1..] == rest;
  }

  lemma OneLink(href: string, caption: string, rest: string)
    ensures Hrefs(LinkItem(href, caption) + rest) == [href] + Hrefs(rest)
  {
    hide Escaped, Unescaped, Hrefs, NoAnchor;
    EscapedSafe(href);
    UnescapedEscaped(href);
    var e := Escaped(href);
    var tail := ">" + Escaped(caption) + "</a>" + "</li>";
    NoAnchorTag("<li>");
    SkipText("<li>", ANCHOR + (e + "\"" + (tail + rest)));
    AnchorStep(e, tail + rest);
    LinkTail(caption);
    SkipText(tail, rest);
    LinkItemShape(href, caption, rest);
  }

  lemma LinkItemShape(href: string, caption: string, rest: string)
    ensures LinkItem(href, caption) + rest ==
      "<li>" + (ANCHOR + (Escaped(href) + "\"" + ((">" + Escaped(caption) + "</a>" + "</li>") + rest)))
  {
    hide Escaped;
  }

  lemma LinkTail(caption: string)
    ensures NoAnchor(">" + Escaped(caption) + "</a>" + "</li>")
  {
    hide Escaped;
    EscapedSafe(caption);
    NoAnchorText(">" + Escaped(caption));
    NoAnchorTag("</a>");
    NoAnchorTag("</li>");
    NoAnchorConcat(">" + Escaped(caption), "</a>");
    NoAnchorConcat(">" + Escaped(caption) + "</a>", "</li>");
  }

  function EntryHrefs(entries: seq<DirectoryEntry>): seq<string> {
    seq(|entries|, i requires 0 <= i < |entries| => "/" + EntryPath(entries[i]))
  }

  lemma NoItems(rest: string)
    ensures Items([]) + rest == rest && EntryHrefs([]) == []
  {
  }

  lemma ItemsCons(entries: seq<DirectoryEntry>)
    requires entries != []
    ensures Items(entries) == LinkItem("/" + EntryPath(entries[0]), Label(entries[0])) + Items(entries[1..])
  {
    hide LinkItem, EntryPath, Label;
  }

  lemma HrefsCons(entries: seq<DirectoryEntry>)
    requires entries != []
    ensures EntryHrefs(entries) == ["/" + EntryPath(entries[0])] + EntryHrefs(entries[1..])
  {
    hide EntryPath;
  }

  lemma Regrouped(a: string, b: string, rest: string)
    ensures (a + b) + rest == a + (b + rest)
  {
  }

  lemma ItemsUnfold(entries: seq<DirectoryEntry>, rest: string)
    requires entries != []
    ensures Items(entries) + rest ==
      LinkItem("/" + EntryPath(entries[0]), Label(entries[0])) + (Items(entries[1..]) + rest)
    ensures EntryHrefs(entries) == ["/" + EntryPath(entries[0])] + EntryHrefs(entries[1..])
  {
    hide LinkItem, EntryPath, Label, Items, EntryHrefs;
    ItemsCons(entries);
    HrefsCons(entries);
    Regrouped(LinkItem("/" + EntryPath(entries[0]), Label(entries[0])), Items(entries[1..]), rest);
  }

  lemma {:induction false} ItemLinks(entries: seq<DirectoryEntry>)
    ensures Hrefs(Items(entries) + Closing()) == EntryHrefs(entries)
  {
    hide *;
    if entries == [] {
      ClosingSkipped();
      NoItems(Closing());
    } else {
      ItemLinks(entries[1..]);
      ItemsUnfold(entries, Closing());
      OneLink("/" + EntryPath(entries[0]), Label(entries[0]), Items(entries[1..]) + Closing());
    }
  }

  lemma ClosingSkipped()
    ensures Hrefs(Closing()) == []
  {
    NoAnchorTag("</ul>");
    NoAnchorTag("</body>");
    NoAnchorTag("</html>");
    NoAnchorText("\n");
    NoAnchorConcat("</ul>", "</body>");
    NoAnchorConcat("</ul>" + "</body>", "</html>");
    NoAnchorConcat("</ul>" + "</body>" + "</html>", "\n");
    SkipText(Closing(), "");
    assert Closing() + "" == Closing();
  }

  lemma OpeningHasNoAnchor()
    ensures NoAnchor(Opening())
  {
    hide NoAnchor;
    var a, b, c, d, e, f := "<!doctype html>", "<html>", "<head>", "<meta charset=\"utf-8\">", "<title>", "Index of /";
    OpeningTags();
    NoAnchorConcat(a, b);
    NoAnchorConcat(a + b, c);
    NoAnchorConcat(a + b + c, d);
    NoAnchorConcat(a + b + c + d, e);
    NoAnchorConcat(a + b + c + d + e, f);
  }

  lemma OpeningTags()
    ensures NoAnchor("<!doctype html>") && NoAnchor("<html>") && NoAnchor("<head>")
    ensures NoAnchor("<meta charset=\"utf-8\">") && NoAnchor("<title>") && NoAnchor("Index of /")
  {
    NoAnchorTag("<!doctype html>");
    NoAnchorTag("<html>");
    NoAnchorTag("<head>");
    NoAnchorTag("<meta charset=\"utf-8\">");
    NoAnchorTag("<title>");
    NoAnchorText("Index of /");
  }

  lemma HeadingHasNoAnchor()
    ensures NoAnchor(Heading()) && NoAnchor(ListStart())
  {
    NoAnchorTag("</title>");
    NoAnchorTag("</head>");
    NoAnchorTag("<body>");
    NoAnchorTag("<h1>");
    NoAnchorText("Index of /");
    NoAnchorConcat("</title>", "</head>");
    NoAnchorConcat("</title>" + "</head>", "<body>");
    NoAnchorConcat("</title>" + "</head>" + "<body>", "<h1>");
    NoAnchorConcat("</title>" + "</head>" + "<body>" + "<h1>", "Index of /");
    NoAnchorTag("</h1>");
    NoAnchorTag("<ul>");
    NoAnchorConcat("</h1>", "<ul>");
  }

  lemma HeadHasNoAnchor(directory: string)
    ensures NoAnchor(Top(directory))
  {
    hide Escaped, NoAnchor;
    var e := Escaped(directory);
    EscapedSafe(directory);
    NoAnchorText(e);
    OpeningHasNoAnchor();
    HeadingHasNoAnchor();
    NoAnchorConcat(Opening(), e);
    NoAnchorConcat(Opening() + e, Heading());
    NoAnchorConcat(Opening() + e + Heading(), e);
    NoAnchorConcat(Opening() + e + Heading() + e, ListStart());
  }

  /** The links of a rendered page are the parent link, if any, and then every entry's path in order. */
  lemma PageLinks(directory: string, entries: seq<DirectoryEntry>)
    ensures Hrefs(Page(directory, entries)) ==
      (if directory == "" then [] else ["/" + ParentDirectory(directory)]) + EntryHrefs(entries)
  {
    hide Escaped, NoAnchor, Items, LinkItem, EntryHrefs, Hrefs, ParentDirectory, Top, Closing;
    Reassociated(Top(directory), ParentItem(directory), Items(entries), Closing());
    HeadHasNoAnchor(directory);
    var head := Top(directory);
    var body := Items(entries) + Closing();
    SkipText(head, ParentItem(directory) + body);
    ItemLinks(entries);
    if directory == "" {
      assert ParentItem(directory) + body == body;
    } else {
      OneLink("/" + ParentDirectory(directory), "../", body);
    }
  }

  /** The parent of a directory ends where its last name begins, and entries are labelled with their
      last names, directories with a slash after it. */
  lemma LastNameTells(above: string, name: string, item: VisibleObject)
    requires (above == "" || above[|above| - 1] == '/') && name != "" && '/' !in name
    ensures ParentDirectory(above + name + "/") == above
    ensures Label(Directory(above + name + "/")) == name + "/"
    ensures item.path == above + name ==> Label(File(item)) == name
  {
    hide LastSegment, TrimSlashes;
    LastSegmentConcat(above, name);
    OneSlash(above + name);
    assert above + name + "/" == (above + name) + "/";
    assert (above + name)[..|above|] == above;
  }

  lemma OneSlash(s: string)
    requires s != "" && s[|s| - 1] != '/'
    ensures TrimSlashes(s + "/") == s
  {
    assert (s + "/")[..|s|] == s;
  }

  /** The text around the links: the directory is named in the title and the heading. */
  lemma PageTells(directory: string, entries: seq<DirectoryEntry>)
    ensures Page(directory, entries) ==
      "<!doctype html><html><head><meta charset=\"utf-8\"><title>Index of /" + Escaped(directory)
        + "</title></head><body><h1>Index of /" + Escaped(directory) + "</h1><ul>"
        + ParentItem(directory) + Items(entries) + "</ul></body></html>\n"
  {
    hide Escaped, ParentItem, Items;
    WordsTell();
    OpeningTells();
    var d, links := Escaped(directory), ParentItem(directory) + Items(entries);
    hide Opening, Heading, ListStart, Closing;
  }

  lemma WordsTell()
    ensures Heading() == "</title></head><body><h1>Index of /"
    ensures ListStart() == "</h1><ul>" && Closing() == "</ul></body></html>\n"
  {
  }

  lemma OpeningTells()
    ensures Opening() == "<!doctype html><html><head><meta charset=\"utf-8\"><title>Index of /"
  {
    var html, head := "<!doctype html><html>", "<!doctype html><html><head>";
    assert "<!doctype html>" + "<html>" == html && html + "<head>" == head;
    OpeningEnd();
  }

  lemma OpeningEnd()
    ensures "<!doctype html><html><head>" + "<meta charset=\"utf-8\">" + "<title>" + "Index of /" ==
      "<!doctype html><html><head><meta charset=\"utf-8\"><title>Index of /"
  {
  }

  // ---- Answering a request from the index ----

  datatype Answer =
    | FileBody(item: VisibleObject)
    | RedirectTo(directory: string)
    | Listed(directory: string, entries: seq<DirectoryEntry>)
    | Missing
    | BadRequest

  /** The file, redirect or listing decision of `handle_autoindex`. */
  function Resolve(objects: Objects, target: string): Answer {
    match ParseRequestPath(target)
    case Err(_) => BadRequest
    case Ok(path) =>
      if path in objects then FileBody(objects[path])
      else if path == "" || IsDirectory(path) then
        match ChildrenOf(objects, path)
        case Err(_) => Missing
        case Ok(entries) => Listed(path, entries)
      else if HasDirectory(objects, path + "/") == Ok(true) then RedirectTo(path + "/")
      else Missing
  }

  /** A directory that exists: the root, or one with an object below it. */
  ghost predicate Exists(objects: Objects, directory: string) {
    ValidDirectory(directory) && HasDirectory(objects, directory) == Ok(true)
  }

  lemma RequestRoundTrip(path: string)
    requires path == "" || ValidRelative(path)
    ensures ParseRequestPath("/" + path) == Ok(path)
  {
    hide Split;
    var target := "/" + path;
    assert target[1..] == path;
    if path != "" {
      assert target[1] == path[0];
    }
    forall c | c in target ensures IsSafePathChar(c) {
      assert c == '/' || c in path;
    }
  }

  lemma FileResolves(objects: Objects, path: string)
    requires Projectable(objects) && path in objects
    ensures Resolve(objects, "/" + path) == FileBody(objects[path])
  {
    hide ValidRelative, ChildrenOf, HasDirectory;
    assert ValidFile(path);
    RequestRoundTrip(path);
  }

  lemma DirectoryNoFile(objects: Objects, directory: string)
    requires Projectable(objects) && ValidDirectory(directory)
    ensures directory !in objects
  {
    hide Split;
    assert directory in objects ==> ValidFile(directory);
  }

  lemma DirectoryResolves(objects: Objects, directory: string)
    requires Projectable(objects) && ValidDirectory(directory)
    ensures Resolve(objects, "/" + directory) == Listed(directory, ChildrenOf(objects, directory).value)
  {
    hide ValidRelative, ChildrenOf, HasDirectory, Projectable;
    DirectoryNoFile(objects, directory);
    ChildrenAreNamed(objects, directory);
    RequestRoundTrip(directory);
  }

  lemma NotBelow(objects: Objects, path: string)
    requires Projectable(objects) && ValidRelative(path) && path[|path| - 1] != '/'
    ensures HasDirectory(objects, path + "/") == Ok(true) <==> exists p :: p in objects && path + "/" <= p
  {
    hide ValidRelative;
    assert IsDirectory(path + "/");
    if p :| p in objects && path + "/" <= p {
      assert ValidFile(p);
      PrefixIsDirectory(p, path + "/");
      assert path + "/" != "";
    }
  }

  /** How every well-formed path is answered: an object by its bytes, a path with a trailing slash by a
      listing, a path with objects below it by a redirect to its listing, and any other as missing. */
  lemma ResolveTells(objects: Objects, path: string)
    requires Projectable(objects) && (path == "" || ValidRelative(path))
    ensures ChildrenOf(objects, path).Ok? <==> path == "" || path[|path| - 1] == '/'
    ensures Resolve(objects, "/" + path) ==
      if path in objects then FileBody(objects[path])
      else if path == "" || path[|path| - 1] == '/' then Listed(path, ChildrenOf(objects, path).value)
      else if exists p :: p in objects && path + "/" <= p then RedirectTo(path + "/")
      else Missing
  {
    hide ValidRelative, HasDirectory, ParseRequestPath, EntriesInOrder, Projectable;
    RequestRoundTrip(path);
    if path != "" {
      assert path[|path| - 1..] == [path[|path| - 1]];
      if path[|path| - 1] != '/' {
        NotBelow(objects, path);
      }
    }
  }

  /** Anything else is a bad request. */
  lemma BadRequestIff(objects: Objects, target: string)
    ensures Resolve(objects, target) == BadRequest <==>
      !exists path :: (path == "" || ValidRelative(path)) && target == "/" + path
  {
    hide ValidRelative, ChildrenOf, HasDirectory, ParseRequestPath;
    if path :| (path == "" || ValidRelative(path)) && target == "/" + path {
      RequestRoundTrip(path);
    }
    if ParseRequestPath(target).Ok? {
      RequestSpelled(target);
    }
  }

  lemma RequestSpelled(target: string)
    requires ParseRequestPath(target).Ok?
    ensures var path := ParseRequestPath(target).value; (path == "" || ValidRelative(path)) && target == "/" + path
  {
    hide ValidRelative;
    assert target == [target[0]] + target[1..];
  }

  /** A redirect leads to a directory that exists. */
  lemma RedirectResolves(objects: Objects, target: string)
    requires Projectable(objects) && Resolve(objects, target).RedirectTo?
    ensures Exists(objects, Resolve(objects, target).directory)
    ensures Resolve(objects, "/" + Resolve(objects, target).directory).Listed?
  {
    hide ValidRelative, ChildrenOf, ParseRequestPath, Projectable;
    var d := Resolve(objects, target).directory;
    assert HasDirectory(objects, d) == Ok(true);
    DirectoryResolves(objects, d);
  }

  lemma {:induction false} TrimIsPrefix(s: string)
    ensures TrimSlashes(s) <= s
  {
    if s != "" && s[|s| - 1] == '/' {
      TrimIsPrefix(s[..|s| - 1]);
    }
  }

  lemma ParentSpelled(directory: string)
    ensures ParentDirectory(directory) <= directory
    ensures ParentDirectory(directory) == "" || IsDirectory(ParentDirectory(directory))
  {
    TrimIsPrefix(directory);
    var bare := TrimSlashes(directory);
    var parent := ParentDirectory(directory);
    if parent != "" {
      assert parent[|parent| - 1..] == [bare[|parent| - 1]];
    }
  }

  /** The parent of a directory that exists exists. */
  lemma ParentExists(objects: Objects, directory: string)
    requires Projectable(objects) && Exists(objects, directory) && directory != ""
    ensures Exists(objects, ParentDirectory(directory))
  {
    hide ValidRelative, ParentDirectory;
    var parent := ParentDirectory(directory);
    ParentSpelled(directory);
    var path :| path in objects && directory <= path;
    assert ValidFile(path);
    if parent != "" {
      PrefixIsDirectory(path, parent);
      assert parent <= path;
    }
  }

  /** Every link on the page of an existing directory leads to an object of the index or to the
      page of an existing directory: no link is dead. */
  lemma LinksResolve(objects: Objects, directory: string, k: nat)
    requires Projectable(objects) && Exists(objects, directory)
    requires k < |Hrefs(Page(directory, ChildrenOf(objects, directory).value))|
    ensures LeadsSomewhere(objects, Hrefs(Page(directory, ChildrenOf(objects, directory).value))[k])
  {
    hide Projectable, Exists, Page, Hrefs, ChildrenOf, LeadsSomewhere, ParentDirectory, EntryPath;
    ExistsIsDirectory(objects, directory);
    Listable(objects, directory);
    var entries := ChildrenOf(objects, directory).value;
    LinkAt(directory, entries, k);
    var parents := if directory == "" then 0 else 1;
    if k < parents {
      ParentResolves(objects, directory);
    } else {
      EntryResolves(objects, directory, entries[k - parents]);
    }
  }

  /** The link is an object's path or the path of an existing directory, and is answered with that. */
  ghost predicate LeadsSomewhere(objects: Objects, link: string) {
    match Resolve(objects, link)
    case FileBody(item) => link == "/" + item.path && item in objects.Values
    case Listed(d, entries) => link == "/" + d && Exists(objects, d)
    case _ => false
  }

  /** The parent link comes first, unless at the root, and then the entries' links. */
  lemma LinkAt(directory: string, entries: seq<DirectoryEntry>, k: nat)
    requires ValidDirectory(directory) && k < |Hrefs(Page(directory, entries))|
    ensures var parents := if directory == "" then 0 else 1;
      if k < parents then Hrefs(Page(directory, entries))[k] == "/" + ParentDirectory(directory)
      else k - parents < |entries| && Hrefs(Page(directory, entries))[k] == "/" + EntryPath(entries[k - parents])
  {
    hide Page, Hrefs, ParentDirectory, EntryPath, ValidDirectory;
    PageLinks(directory, entries);
  }

  lemma ParentResolves(objects: Objects, directory: string)
    requires Projectable(objects) && Exists(objects, directory) && directory != ""
    ensures LeadsSomewhere(objects, "/" + ParentDirectory(directory))
  {
    hide Projectable, ValidRelative, ChildrenOf, Resolve, ParentDirectory;
    ParentExists(objects, directory);
    ExistsIsDirectory(objects, ParentDirectory(directory));
    DirectoryResolves(objects, ParentDirectory(directory));
  }

  lemma Listable(objects: Objects, directory: string)
    requires ValidDirectory(directory)
    ensures ChildrenOf(objects, directory).Ok?
  {
  }

  lemma ExistsIsDirectory(objects: Objects, directory: string)
    requires Exists(objects, directory)
    ensures ValidDirectory(directory)
  {
  }

  lemma EntryResolves(objects: Objects, directory: string, entry: DirectoryEntry)
    requires Projectable(objects) && Exists(objects, directory) && ChildrenOf(objects, directory).Ok?
    requires entry in ChildrenOf(objects, directory).value
    ensures LeadsSomewhere(objects, "/" + EntryPath(entry))
  {
    hide Projectable, ValidRelative, ChildrenOf, Resolve, ParentDirectory;
    ListedEntries(objects, directory, entry);
    match entry
    case File(item) =>
      assert objects[item.path] in objects.Values;
      FileResolves(objects, item.path);
    case Directory(d) => DirectoryResolves(objects, d);
  }

  /** A well-formed directory is always answered with its listing, never as missing, and the listing
      is empty exactly when the directory does not exist, or is the root of an empty index. */
  lemma EmptyPageIffAbsent(objects: Objects, directory: string)
    requires Projectable(objects) && ValidDirectory(directory)
    ensures ChildrenOf(objects, directory).Ok?
    ensures Resolve(objects, "/" + directory) == Listed(directory, ChildrenOf(objects, directory).value)
    ensures ChildrenOf(objects, directory).value == [] <==> !Exists(objects, directory) || objects == map[]
  {
    hide Projectable, ValidRelative, NameIn, Resolve, ValidDirectory;
    DirectoryResolves(objects, directory);
    ChildrenAreNamed(objects, directory);
    var names := ChildNamesInOrder(objects, directory);
    if names != [] {
      assert names[0] in names;
      var path :| path in objects && directory <= path && NameIn(directory, path) == names[0];
      PathBelow(objects, directory, path);
    }
    if Exists(objects, directory) && objects != map[] {
      var path := SomethingBelow(objects, directory);
      assert NameIn(directory, path) in ChildNames(objects, directory);
    }
  }

  lemma PathBelow(objects: Objects, directory: string, path: string)
    requires ValidDirectory(directory) && path in objects && directory <= path
    ensures Exists(objects, directory)
  {
  }

  lemma SomethingBelow(objects: Objects, directory: string) returns (path: string)
    requires Exists(objects, directory) && objects != map[]
    ensures path in objects && directory <= path
  {
    hide ValidRelative;
    if directory == "" {
      path :| path in objects;
    } else {
      path :| path in objects && directory <= path;
    }
  }
}
