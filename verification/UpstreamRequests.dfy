/** Which requests of a client reach the registry, operation by operation: the methods, the queries and
    the URL of each. */
module UpstreamRequests {
  import opened Wrappers
  import opened Text
  import opened Digests
  import opened Locators
  import opened Uploads
  import opened Forwarding
  import opened UploadLoop

  // ---- Queries as text ----

  /** One part `key=value` of a query. */
  function Part(key: string, value: string): string {
    key + ['='] + value
  }

  /** With keys from a pair and none twice there are at most two parts, and two have different keys. */
  lemma AtMostTwo(parts: seq<string>, a: string, b: string)
    requires NoKeyTwice(parts) && forall part | part in parts :: Key(part) == a || Key(part) == b
    ensures |parts| <= 2
    ensures |parts| == 2 ==> Key(parts[0]) != Key(parts[1])
  {
    hide Key;
    if |parts| > 2 {
      ThreeKeys(parts, a, b);
    }
  }

  lemma ThreeKeys(parts: seq<string>, a: string, b: string)
    requires |parts| > 2 && forall part | part in parts :: Key(part) == a || Key(part) == b
    ensures Key(parts[0]) == Key(parts[1]) || Key(parts[0]) == Key(parts[2]) || Key(parts[1]) == Key(parts[2])
  {
    hide Key;
    assert parts[0] in parts && parts[1] in parts && parts[2] in parts;
  }

  lemma PartKey(key: string, value: string)
    requires '=' !in key
    ensures SplitOnce(Part(key, value)) == Some((key, value)) && Key(Part(key, value)) == key
  {
    hide SplitOnce;
    SplitOnceConcat(key, value);
  }

  lemma SplitParts(a: string, b: string)
    requires '&' !in a && '&' !in b
    ensures Split(a, '&') == [a] && Split(a + ['&'] + b, '&') == [a, b]
  {
    hide Split;
    SplitWhole(a, '&');
    SplitWhole(b, '&');
    SplitConcat(a, '&', b);
  }

  lemma NoKeyTwiceInParts(a: string, b: string)
    ensures NoKeyTwice([a])
    ensures Key(a) != Key(b) ==> NoKeyTwice([a, b]) && NoKeyTwice([b, a])
  {
    hide Key;
  }

  /** The join of one or two parts. */
  lemma JoinParts(query: string)
    ensures var parts := Split(query, '&');
      && (|parts| == 1 ==> query == parts[0])
      && (|parts| == 2 ==> query == parts[0] + ['&'] + parts[1])
  {
    hide Split, Join;
    var parts := Split(query, '&');
    JoinOfSplit(query, '&');
    if |parts| == 1 {
      assert parts == [parts[0]];
      JoinOne(parts[0], '&');
    } else if |parts| == 2 {
      assert parts == [parts[0]] + [parts[1]];
      JoinCons(parts[0], [parts[1]], '&');
      JoinOne(parts[1], '&');
    }
  }

  lemma PlainPart(key: string, value: string)
    requires '&' !in key && IsSafeText(key) && '&' !in value && IsSafeText(value)
    ensures '&' !in Part(key, value) && IsSafeText(Part(key, value))
  {
    hide IsSafeText;
    SafeWords();
    SafeConcat(key, ['=']);
    SafeConcat(key + ['='], value);
  }

  lemma RepositoryIsSafe(repository: string)
    requires ValidRepository(repository)
    ensures '&' !in repository && IsSafeText(repository)
  {
    hide ValidRepository;
    RepositoryChars(repository);
  }

  lemma MountWords()
    ensures '&' !in "mount" && IsSafeText("mount") && '&' !in "from" && IsSafeText("from")
    ensures '=' !in "mount" && '=' !in "from" && "mount" != "from"
  {
    assert |"mount"| != |"from"|;
  }

  lemma MountSpelled(repository: string, digest: string)
    requires ValidRepository(repository) && ValidSha256Digest(digest)
    ensures var a, b := Part("mount", digest), Part("from", repository);
      MountQuery(a + ['&'] + b, repository) && MountQuery(b + ['&'] + a, repository)
  {
    hide ValidRepository, ValidSha256Digest, IsSafeText, Split, SplitOnce, Key, Part;
    var a, b := Part("mount", digest), Part("from", repository);
    MountWords();
    ClientDigestIsSafe(digest);
    RepositoryIsSafe(repository);
    PlainPart("mount", digest);
    PlainPart("from", repository);
    PartKey("mount", digest);
    PartKey("from", repository);
    SplitParts(a, b);
    SplitParts(b, a);
    NoKeyTwiceInParts(a, b);
    SafeWords();
    SafeConcat(a, ['&']);
    SafeConcat(a + ['&'], b);
    SafeConcat(b, ['&']);
    SafeConcat(b + ['&'], a);
    assert Key([a, b][0]) == "mount" && Key([a, b][1]) == "from";
    assert Key([b, a][0]) == "from" && Key([b, a][1]) == "mount";
  }

  lemma GoodMountIsPart(part: string, repository: string)
    requires GoodMountPart(part, repository)
    ensures Key(part) == "mount" || Key(part) == "from"
    ensures Key(part) == "mount" ==> exists digest :: ValidSha256Digest(digest) && part == Part("mount", digest)
    ensures Key(part) == "from" ==> part == Part("from", repository)
  {
    hide ValidSha256Digest;
    var (key, value) := SplitOnce(part).value;
    MountWords();
    assert part == Part(key, value);
  }

  /** A mount query names a digest to mount and this repository to take it from, once each. */
  lemma MountQueryIff(query: string, repository: string)
    requires ValidRepository(repository)
    ensures MountQuery(query, repository) <==> exists digest: string ::
      && ValidSha256Digest(digest)
      && (query == "mount=" + digest + "&from=" + repository || query == "from=" + repository + "&mount=" + digest)
  {
    hide ValidRepository, ValidSha256Digest, IsSafeText, Split, GoodMountPart, Key, MountQuery;
    if MountQuery(query, repository) {
      var digest := MountedDigest(query, repository);
      MountText(digest, repository);
    }
    forall digest: string | ValidSha256Digest(digest)
      && (query == "mount=" + digest + "&from=" + repository || query == "from=" + repository + "&mount=" + digest)
      ensures MountQuery(query, repository)
    {
      MountSpelled(repository, digest);
      MountText(digest, repository);
    }
  }

  lemma MountText(digest: string, repository: string)
    ensures Part("mount", digest) + ['&'] + Part("from", repository) == "mount=" + digest + "&from=" + repository
    ensures Part("from", repository) + ['&'] + Part("mount", digest) == "from=" + repository + "&mount=" + digest
  {
    assert "mount=" == "mount" + ['='] && "&from=" == ['&'] + "from" + ['='];
    assert "from=" == "from" + ['='] && "&mount=" == ['&'] + "mount" + ['='];
  }

  lemma MountedDigest(query: string, repository: string) returns (digest: string)
    requires MountQuery(query, repository)
    ensures ValidSha256Digest(digest)
    ensures var a, b := Part("mount", digest), Part("from", repository);
      query == a + ['&'] + b || query == b + ['&'] + a
  {
    hide ValidSha256Digest, IsSafeText, Split, GoodMountPart, Key, Part;
    var parts := Split(query, '&');
    forall part | part in parts
      ensures Key(part) == "mount" || Key(part) == "from"
      ensures Key(part) == "mount" ==> exists d :: ValidSha256Digest(d) && part == Part("mount", d)
      ensures Key(part) == "from" ==> part == Part("from", repository)
    {
      GoodMountIsPart(part, repository);
    }
    AtMostTwo(parts, "mount", "from");
    MountWords();
    JoinParts(query);
    var i :| 0 <= i < |parts| && Key(parts[i]) == "mount";
    assert parts[i] in parts;
    digest :| ValidSha256Digest(digest) && parts[i] == Part("mount", digest);
    var j :| 0 <= j < |parts| && Key(parts[j]) == "from";
    assert parts[j] in parts && i != j;
  }

  /** One or both parts of an upload query, in either order. */
  ghost predicate SpellsUpload(query: string, state: string, digest: string) {
    && state != "" && '&' !in state && ValidSha256Digest(digest)
    && (query == "_state=" + state || query == "digest=" + digest
      || query == "_state=" + state + "&digest=" + digest || query == "digest=" + digest + "&_state=" + state)
  }

  /** An upload query holds a non-empty state, a digest or both, once each, and no control character
      or fragment mark. */
  lemma ClientQueryIff(query: string)
    ensures ClientQuery(query) <==>
      && (forall c | c in query :: 0x20 <= c as int && c as int != 0x7F && c != '#')
      && exists state, digest :: SpellsUpload(query, state, digest)
  {
    hide ClientQuery, SpellsUpload;
    SafeTextIff(query);
    if ClientQuery(query) {
      QueryIsSafe(query);
      var state, digest := UploadParts(query);
    }
    forall state, digest | IsSafeText(query) && SpellsUpload(query, state, digest) ensures ClientQuery(query) {
      UploadSpelled(query, state, digest);
    }
  }

  lemma SafeTextIff(s: string)
    ensures IsSafeText(s) <==> forall c | c in s :: 0x20 <= c as int && c as int != 0x7F && c != '#'
  {
  }

  lemma QueryIsSafe(query: string)
    requires ClientQuery(query)
    ensures IsSafeText(query)
  {
  }

  lemma UploadText(state: string, digest: string)
    ensures Part("_state", state) == "_state=" + state && Part("digest", digest) == "digest=" + digest
    ensures Part("_state", state) + ['&'] + Part("digest", digest) == "_state=" + state + "&digest=" + digest
    ensures Part("digest", digest) + ['&'] + Part("_state", state) == "digest=" + digest + "&_state=" + state
  {
    assert "_state=" == "_state" + ['='] && "&_state=" == ['&'] + "_state" + ['='];
    assert "digest=" == "digest" + ['='] && "&digest=" == ['&'] + "digest" + ['='];
  }

  lemma UploadWords()
    ensures '&' !in "_state" && '=' !in "_state" && '&' !in "digest" && '=' !in "digest"
    ensures "_state" != "digest"
  {
    assert "_state"[0] != "digest"[0];
  }

  lemma GoodClientIsPart(part: string)
    requires GoodClientPart(part) && '&' !in part
    ensures Key(part) == "_state" || Key(part) == "digest"
    ensures Key(part) == "_state" ==> exists state :: state != "" && '&' !in state && part == Part("_state", state)
    ensures Key(part) == "digest" ==> exists digest :: ValidSha256Digest(digest) && part == Part("digest", digest)
  {
    hide ValidSha256Digest;
    var (key, value) := SplitOnce(part).value;
    UploadWords();
    assert part == Part(key, value);
    assert forall c | c in value :: c in part;
  }

  lemma SomeDigest()
    ensures ValidSha256Digest(EMPTY_CONFIG_DIGEST)
  {
    EmptyConfigDigestValid();
    PlainDigestIsClientDigest(EMPTY_CONFIG_DIGEST);
  }

  lemma UploadParts(query: string) returns (state: string, digest: string)
    requires ClientQuery(query)
    ensures SpellsUpload(query, state, digest)
  {
    hide ValidSha256Digest, IsSafeText, Split, GoodClientPart, Key, Part;
    var parts := Split(query, '&');
    forall part | part in parts
      ensures Key(part) == "_state" || Key(part) == "digest"
      ensures Key(part) == "_state" ==> exists s :: s != "" && '&' !in s && part == Part("_state", s)
      ensures Key(part) == "digest" ==> exists d :: ValidSha256Digest(d) && part == Part("digest", d)
    {
      GoodClientIsPart(part);
    }
    AtMostTwo(parts, "_state", "digest");
    JoinParts(query);
    UploadWords();
    SomeDigest();
    state, digest := "s", EMPTY_CONFIG_DIGEST;
    assert parts[0] in parts;
    if i :| 0 <= i < |parts| && Key(parts[i]) == "_state" {
      assert parts[i] in parts;
      state :| state != "" && '&' !in state && parts[i] == Part("_state", state);
    }
    if j :| 0 <= j < |parts| && Key(parts[j]) == "digest" {
      assert parts[j] in parts;
      digest :| ValidSha256Digest(digest) && parts[j] == Part("digest", digest);
    }
    UploadText(state, digest);
  }

  lemma UploadSpelled(query: string, state: string, digest: string)
    requires IsSafeText(query) && SpellsUpload(query, state, digest)
    ensures ClientQuery(query)
  {
    hide ValidSha256Digest, IsSafeText, Split, SplitOnce, Key, Part;
    var a, b := Part("_state", state), Part("digest", digest);
    UploadText(state, digest);
    UploadWords();
    ClientDigestIsSafe(digest);
    PartKey("_state", state);
    PartKey("digest", digest);
    PartAmpersand("_state", state);
    PartAmpersand("digest", digest);
    SplitParts(a, b);
    SplitParts(b, a);
    NoKeyTwiceInParts(a, b);
    NoKeyTwiceInParts(b, a);
  }

  lemma PartAmpersand(key: string, value: string)
    requires '&' !in key && '&' !in value
    ensures '&' !in Part(key, value)
  {
  }

  // ---- Requests, operation by operation ----

  lemma PathOf(repository: string, operation: string, target: Target)
    requires ValidRepository(repository) && ValidTarget(target) && !target.Version?
    requires operation == Operation(target) || (target.UploadStart? && operation == "blobs/uploads")
    ensures ParsePath("/v2/" + repository + "/" + operation, repository) == Ok(target)
  {
    hide ValidRepository, ParsePath, Operation, ValidTarget;
    var path := "/v2/" + repository + "/" + operation;
    assert path == Base(repository) + operation;
    assert NamesOperation(operation, target);
    ParsePathIff(path, repository, target);
  }

  lemma UrlOf(origin: Origin, path: string, query: Option<string>)
    ensures OriginText(origin) + (path + QueryText(query)) ==
      origin.scheme + "://" + origin.authority + path + if query.Some? then "?" + query.value else ""
  {
    var text := if query.Some? then "?" + query.value else "";
    assert QueryText(query) == text;
    assert origin.scheme + "://" + origin.authority + (path + text) ==
      origin.scheme + "://" + origin.authority + path + text;
  }

  /** A manifest can be read, put and deleted, by tag or digest, without a query. */
  lemma ManifestRequests(
    origin: Origin, repository: string, verb: Verb, reference: string, query: Option<string>)
    requires ValidRepository(repository) && ValidReference(reference)
    ensures var path := "/v2/" + repository + "/manifests/" + reference;
      Upstream(origin, repository, verb, PathAndQuery(path, query)) ==
        if query.None? && verb in {GET, HEAD, PUT, DELETE} then
          Some(origin.scheme + "://" + origin.authority + path)
        else None
  {
    hide ValidRepository, ParsePath, ValidReference, OriginText, QueryText;
    var path := "/v2/" + repository + "/manifests/" + reference;
    assert "manifests" + ['/'] + reference == "manifests/" + reference;
    assert path == "/v2/" + repository + "/" + ("manifests/" + reference);
    assert path == "/v2/" + repository + ("/manifests/" + reference);
    PathOf(repository, "manifests/" + reference, Manifest(reference));
    UrlOf(origin, path, None);
    assert origin.scheme + "://" + origin.authority + path + "" == origin.scheme + "://" + origin.authority + path;
  }

  /** A blob can be read and deleted, without a query. */
  lemma BlobRequests(origin: Origin, repository: string, verb: Verb, digest: string, query: Option<string>)
    requires ValidRepository(repository) && ValidDigest(digest)
    ensures var path := "/v2/" + repository + "/blobs/" + digest;
      Upstream(origin, repository, verb, PathAndQuery(path, query)) ==
        if query.None? && verb in {GET, HEAD, DELETE} then Some(origin.scheme + "://" + origin.authority + path)
        else None
  {
    hide ValidRepository, ParsePath, ValidDigest, OriginText, QueryText;
    var path := "/v2/" + repository + "/blobs/" + digest;
    assert "blobs" + ['/'] + digest == "blobs/" + digest;
    assert path == "/v2/" + repository + "/" + ("blobs/" + digest);
    assert path == "/v2/" + repository + ("/blobs/" + digest);
    PathOf(repository, "blobs/" + digest, Blob(digest));
    UrlOf(origin, path, None);
    assert origin.scheme + "://" + origin.authority + path + "" == origin.scheme + "://" + origin.authority + path;
  }

  lemma StartPath(repository: string, slash: string)
    requires ValidRepository(repository) && (slash == "" || slash == "/")
    ensures ParsePath("/v2/" + repository + "/blobs/uploads" + slash, repository) == Ok(UploadStart)
  {
    hide ValidRepository, ParsePath;
    assert "blobs/uploads" + slash == if slash == "" then "blobs/uploads" else "blobs/uploads/";
    assert "/v2/" + repository + "/blobs/uploads" + slash == "/v2/" + repository + "/" + ("blobs/uploads" + slash);
    PathOf(repository, "blobs/uploads" + slash, UploadStart);
  }

  /** An upload is started by POST, with or without the slash, plainly or as a mount. */
  lemma StartRequests(origin: Origin, repository: string, verb: Verb, slash: string, query: Option<string>)
    requires ValidRepository(repository) && (slash == "" || slash == "/")
    ensures Upstream(origin, repository, verb, PathAndQuery("/v2/" + repository + "/blobs/uploads" + slash, query)) ==
      if verb == POST && (query.Some? ==> MountQuery(query.value, repository)) then
        Some(origin.scheme + "://" + origin.authority + "/v2/" + repository + "/blobs/uploads/"
          + if query.Some? then "?" + query.value else "")
      else None
  {
    hide ValidRepository, ParsePath, MountQuery, OriginText, QueryText;
    StartPath(repository, slash);
    var full := "/v2/" + repository + "/blobs/uploads/";
    UrlOf(origin, full, query);
    assert origin.scheme + "://" + origin.authority + full
      == origin.scheme + "://" + origin.authority + "/v2/" + repository + "/blobs/uploads/";
  }

  /** An upload session is continued, finished and dropped under its own id, with a state, a digest or
      both in the query; reading its status is not passed on. */
  lemma SessionRequests(origin: Origin, repository: string, verb: Verb, id: string, query: Option<string>)
    requires ValidRepository(repository) && ValidUploadId(id)
    ensures var path := "/v2/" + repository + "/blobs/uploads/" + id;
      Upstream(origin, repository, verb, PathAndQuery(path, query)) ==
        if verb in {PATCH, PUT, DELETE} && (query.Some? ==> ClientQuery(query.value)) then
          Some(origin.scheme + "://" + origin.authority + path + if query.Some? then "?" + query.value else "")
        else None
  {
    hide ValidRepository, ParsePath, ValidUploadId, ClientQuery, OriginText, QueryText;
    var path := "/v2/" + repository + "/blobs/uploads/" + id;
    assert path == "/v2/" + repository + "/" + ("blobs/uploads/" + id);
    assert path == "/v2/" + repository + ("/blobs/uploads/" + id);
    PathOf(repository, "blobs/uploads/" + id, Upload(id));
    UrlOf(origin, path, query);
  }

  /** A path of one of the operations above. */
  ghost predicate KnownPath(base: string, path: string) {
    || (exists reference :: ValidReference(reference) && path == base + "/manifests/" + reference)
    || (exists digest :: ValidDigest(digest) && path == base + "/blobs/" + digest)
    || path == base + "/blobs/uploads" || path == base + "/blobs/uploads/"
    || (exists id :: ValidUploadId(id) && path == base + "/blobs/uploads/" + id)
  }

  lemma BelowBase(repository: string, word: string, value: string)
    ensures Base(repository) + (word + value) == "/v2/" + repository + ("/" + word) + value
    ensures Base(repository) + word == "/v2/" + repository + ("/" + word)
  {
  }

  lemma ManifestKnown(repository: string, reference: string)
    requires ValidReference(reference)
    ensures KnownPath("/v2/" + repository, Base(repository) + ("manifests" + ['/'] + reference))
  {
    hide ValidReference, Base;
    BelowBase(repository, "manifests" + ['/'], reference);
    Slashed("manifests");
  }

  lemma BlobKnown(repository: string, digest: string)
    requires ValidDigest(digest)
    ensures KnownPath("/v2/" + repository, Base(repository) + ("blobs" + ['/'] + digest))
  {
    hide ValidDigest, Base;
    BelowBase(repository, "blobs" + ['/'], digest);
    Slashed("blobs");
  }

  lemma UploadKnown(repository: string, id: string)
    ensures ValidUploadId(id) ==> KnownPath("/v2/" + repository, Base(repository) + ("blobs/uploads/" + id))
    ensures KnownPath("/v2/" + repository, Base(repository) + "blobs/uploads")
    ensures KnownPath("/v2/" + repository, Base(repository) + "blobs/uploads/")
  {
    hide ValidUploadId, Base;
    BelowBase(repository, "blobs/uploads", "");
    BelowBase(repository, "blobs/uploads/", id);
    assert "/" + "blobs/uploads" == "/blobs/uploads" && "/" + "blobs/uploads/" == "/blobs/uploads/";
  }

  lemma OperationKnown(repository: string, operation: string, target: Target)
    requires NamesOperation(operation, target)
    ensures KnownPath("/v2/" + repository, Base(repository) + operation)
  {
    hide ValidReference, ValidDigest, ValidUploadId, Base, KnownPath;
    match target
    case Manifest(reference) => ManifestKnown(repository, reference);
    case Blob(digest) => BlobKnown(repository, digest);
    case UploadStart => UploadKnown(repository, "");
    case Upload(id) => UploadKnown(repository, id);
  }

  lemma Slashed(word: string)
    ensures "/" + (word + ['/']) == "/" + word + "/"
  {
  }

  /** Nothing else is passed on: not the version check, no other repository, no other path. */
  lemma NothingElse(origin: Origin, repository: string, verb: Verb, target: PathAndQuery)
    requires ValidRepository(repository) && Upstream(origin, repository, verb, target).Some?
    ensures KnownPath("/v2/" + repository, target.path)
  {
    hide ValidRepository, ParsePath, DistributionQuery, KnownPath, NamesOperation, Base;
    var parsed := ParsePath(target.path, repository).value;
    ParsePathIff(target.path, repository, parsed);
    var operation :| target.path == Base(repository) + operation && NamesOperation(operation, parsed);
    OperationKnown(repository, operation, parsed);
  }

  /** The names in these paths, and that a digest is one of the references. */
  lemma NamesTell(reference: string, digest: string, id: string)
    ensures ValidReference(reference) <==>
      && 0 < |reference| <= 256 && reference[0] != '.' && reference[|reference| - 1] != '.'
      && forall c | c in reference ::
          'a' <= c <= 'z' || 'A' <= c <= 'Z' || '0' <= c <= '9' || c == '.' || c == '_' || c == '-' || c == ':'
    ensures ValidDigest(digest) <==>
      && |digest| == 71 && digest[..7] == "sha256:"
      && forall i | 7 <= i < 71 :: '0' <= digest[i] <= '9' || 'a' <= digest[i] <= 'f'
    ensures ValidDigest(digest) ==> ValidReference(digest)
    ensures ValidUploadId(id) <==>
      && 0 < |id| <= 512 && id != "." && id != ".."
      && forall c | c in id ::
          'a' <= c <= 'z' || 'A' <= c <= 'Z' || '0' <= c <= '9' || c == '.' || c == '_' || c == '-'
  {
    DigestTells(digest);
    if ValidDigest(digest) {
      DigestChars(digest);
    }
    hide ValidDigest;
  }

  lemma DigestTells(digest: string)
    ensures ValidDigest(digest) <==>
      && |digest| == 71 && digest[..7] == "sha256:"
      && forall i | 7 <= i < 71 :: '0' <= digest[i] <= '9' || 'a' <= digest[i] <= 'f'
    ensures ValidDigest(digest) ==> digest[0] == 's' && digest[70] != '.'
  {
    if |digest| == 71 && digest[..7] == "sha256:" {
      var hex := digest[7..];
      assert forall i | 7 <= i < 71 :: digest[i] == hex[i - 7];
      assert forall i | 0 <= i < 64 :: hex[i] == digest[i + 7] && hex[i] in hex;
      assert digest[0] == digest[..7][0];
    }
  }
}
