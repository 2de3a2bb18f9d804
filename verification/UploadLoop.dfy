/** The upload session loop: a client that follows a rewritten location reaches the very upstream
    URL the location named. */
module UploadLoop {
  import opened Wrappers
  import opened Text
  import opened Digests
  import opened Challenges
  import opened Locators
  import opened Uploads
  import opened Forwarding

  datatype PathAndQuery = PathAndQuery(path: string, query: Option<string>)

  /** A parsed `Location` value; authority-form values have no path. */
  datatype Location = Location(scheme: Option<string>, authority: Option<string>, target: Option<PathAndQuery>)

  datatype Origin = Origin(scheme: string, authority: string)

  function OriginText(origin: Origin): string {
    origin.scheme + "://" + origin.authority
  }

  function QueryText(query: Option<string>): string {
    if query.None? then "" else ['?'] + query.value
  }

  function TargetText(target: PathAndQuery): string {
    target.path + QueryText(target.query)
  }

  /** A request target as the proxy sees it: the path up to the first question mark, and the query. */
  function ParseTarget(text: string): PathAndQuery {
    var i := IndexOf(text, '?');
    if i == |text| then PathAndQuery(text, None) else PathAndQuery(text[..i], Some(text[i + 1..]))
  }

  // ---- Rewriting ----

  /** The http library's equality of authorities, which ignores ASCII case. */
  predicate SameAuthority(a: string, b: string) {
    Lower(a) == Lower(b)
  }

  /** Two authorities are the same when their characters are, letter by letter in either case. */
  lemma SameAuthorityTells(a: string, b: string)
    ensures SameAuthority(a, b) <==> |a| == |b| && forall i | 0 <= i < |a| ::
      || a[i] == b[i]
      || ('A' <= a[i] <= 'Z' && b[i] as int == a[i] as int + 32)
      || ('A' <= b[i] <= 'Z' && a[i] as int == b[i] as int + 32)
  {
    if Lower(a) == Lower(b) {
      assert |a| == |Lower(a)| == |b|;
      forall i | 0 <= i < |a| ensures LowerChar(a[i]) == LowerChar(b[i]) {
        assert Lower(a)[i] == Lower(b)[i];
      }
    }
    if |a| == |b| && forall i | 0 <= i < |a| :: LowerChar(a[i]) == LowerChar(b[i]) {
      assert Lower(a) == Lower(b);
    }
  }

  /** The locations of an upload session or of a finished blob of this repository. */
  ghost predicate LocatesUpload(target: PathAndQuery, repository: string, id: string) {
    && SafeUploadId(id) && target.path == Base(repository) + ("blobs/uploads/" + id)
    && (target.query.Some? ==> UpstreamQuery(target.query.value))
  }

  ghost predicate LocatesBlob(target: PathAndQuery, repository: string, digest: string) {
    ValidDigest(digest) && target.path == Base(repository) + ("blobs/" + digest) && target.query.None?
  }

  ghost predicate Locates(target: PathAndQuery, repository: string) {
    (exists id :: LocatesUpload(target, repository, id)) || (exists digest :: LocatesBlob(target, repository, digest))
  }

  /** `rewrite_distribution_location`. */
  method RewriteLocation(location: Location, origin: Origin, repository: string) returns (r: Option<string>)
    ensures r.Some? <==>
      && (location.scheme.Some? ==> location.scheme.value == origin.scheme && location.authority.Some?)
      && (location.scheme.None? ==> location.authority.None?)
      && (location.authority.Some? ==> SameAuthority(location.authority.value, origin.authority))
      && location.target.Some? && Locates(location.target.value, repository)
    ensures r.Some? ==> r.value == TargetText(location.target.value)
  {
    hide SafeUploadId, UpstreamQuery, ValidDigest, TargetText, Base, SameAuthority;
    if location.scheme.Some? {
      if location.scheme.value != origin.scheme
        || location.authority.None? || !SameAuthority(location.authority.value, origin.authority) {
        return None;
      }
    } else if location.authority.Some? {
      return None;
    }
    if location.target.None? {
      return None;
    }
    var target := location.target.value;
    BlobIsNoUpload(target.path, repository);
    var uploadPrefix := Base(repository) + "blobs/uploads/";
    var blobPrefix := Base(repository) + "blobs/";
    if uploadPrefix <= target.path {
      var id := target.path[|uploadPrefix|..];
      assert target.path == uploadPrefix + id == Base(repository) + ("blobs/uploads/" + id);
      assert forall other | target.path == Base(repository) + ("blobs/uploads/" + other) :: other == id by {
        SuffixUnique(target.path, uploadPrefix, Base(repository), "blobs/uploads/");
      }
      if !SafeUploadId(id) {
        return None;
      }
      if target.query.Some? {
        var good := ValidUploadQuery(target.query.value);
        if !good {
          return None;
        }
      }
      assert LocatesUpload(target, repository, id);
    } else if blobPrefix <= target.path {
      var digest := target.path[|blobPrefix|..];
      assert target.path == blobPrefix + digest == Base(repository) + ("blobs/" + digest);
      SuffixUnique(target.path, blobPrefix, Base(repository), "blobs/");
      SuffixUnique(target.path, uploadPrefix, Base(repository), "blobs/uploads/");
      if target.query.Some? || !ValidDigest(digest) {
        return None;
      }
      assert LocatesBlob(target, repository, digest);
    } else {
      SuffixUnique(target.path, blobPrefix, Base(repository), "blobs/");
      SuffixUnique(target.path, uploadPrefix, Base(repository), "blobs/uploads/");
      return None;
    }
    return Some(TargetText(target));
  }

  lemma SuffixUnique(path: string, prefix: string, base: string, word: string)
    requires prefix == base + word
    ensures forall rest | path == base + (word + rest) :: prefix <= path && rest == path[|prefix|..]
  {
    forall rest | path == base + (word + rest) ensures prefix <= path && rest == path[|prefix|..] {
      assert path == prefix + rest;
    }
  }

  lemma BlobIsNoUpload(path: string, repository: string)
    ensures forall digest | ValidDigest(digest) && path == Base(repository) + ("blobs/" + digest) ::
      !(Base(repository) + "blobs/uploads/" <= path)
  {
    hide Base;
    forall digest | ValidDigest(digest) && path == Base(repository) + ("blobs/" + digest)
      ensures !(Base(repository) + "blobs/uploads/" <= path)
    {
      var n := |Base(repository)| + 6;
      assert path[n] == digest[0] == 's';
      assert (Base(repository) + "blobs/uploads/")[n] == 'u';
    }
  }

  // ---- Client requests ----

  /** `valid_distribution_query`. */
  ghost predicate DistributionQuery(target: Target, verb: Verb, query: Option<string>, repository: string) {
    query.Some? ==>
      match target
      case UploadStart => verb == POST && MountQuery(query.value, repository)
      case Upload(_) => verb in {PATCH, PUT, DELETE} && ClientQuery(query.value)
      case _ => false
  }

  method ValidDistributionQuery(target: Target, verb: Verb, query: Option<string>, repository: string)
    returns (ok: bool)
    ensures ok <==> DistributionQuery(target, verb, query, repository)
  {
    hide MountQuery, ClientQuery;
    if query.None? {
      return true;
    }
    match target
    case UploadStart =>
      if verb == POST {
        ok := ValidMountQuery(query.value, repository);
        return;
      }
      return false;
    case Upload(_) =>
      if verb in {PATCH, PUT, DELETE} {
        ok := ValidClientQuery(query.value);
        return;
      }
      return false;
    case _ =>
      return false;
  }

  /** The upstream path of a request below its repository; None when the method is not allowed or
      the proxy answers alone. */
  function Suffix(target: Target, verb: Verb): Option<string> {
    match target
    case Version => None
    case Manifest(reference) => if verb in {GET, HEAD, PUT, DELETE} then Some("/manifests/" + reference) else None
    case Blob(digest) => if verb in {GET, HEAD, DELETE} then Some("/blobs/" + digest) else None
    case UploadStart => if verb == POST then Some("/blobs/uploads/") else None
    case Upload(id) => if verb in {PATCH, PUT, DELETE} then Some("/blobs/uploads/" + id) else None
  }

  /** The URL the proxy requests from the registry for a client's request, if it requests one. */
  method UpstreamUrl(origin: Origin, repository: string, verb: Verb, target: PathAndQuery) returns (url: Option<string>)
    ensures url == Upstream(origin, repository, verb, target)
  {
    hide DistributionQuery, ParsePath;
    var parsed := ParsePath(target.path, repository);
    if parsed.Err? {
      return None;
    }
    var ok := ValidDistributionQuery(parsed.value, verb, target.query, repository);
    if !ok {
      return None;
    }
    var suffix := Suffix(parsed.value, verb);
    if suffix.None? {
      return None;
    }
    return Some(OriginText(origin) + ("/v2/" + repository + suffix.value + QueryText(target.query)));
  }

  ghost function Upstream(origin: Origin, repository: string, verb: Verb, target: PathAndQuery): Option<string> {
    var parsed := ParsePath(target.path, repository);
    if parsed.Ok? && DistributionQuery(parsed.value, verb, target.query, repository)
      && Suffix(parsed.value, verb).Some? then
      Some(OriginText(origin) + ("/v2/" + repository + Suffix(parsed.value, verb).value + QueryText(target.query)))
    else None
  }

  lemma SuffixIsOperation(target: Target, verb: Verb, repository: string)
    requires Suffix(target, verb).Some?
    ensures "/v2/" + repository + Suffix(target, verb).value == Base(repository) + Operation(target)
  {
    hide Suffix, Operation;
    SlashFirst(target, verb);
    var operation := Operation(target);
    assert "/v2/" + repository + ("/" + operation) == "/v2/" + (repository + "/") + operation;
  }

  lemma SlashFirst(target: Target, verb: Verb)
    requires Suffix(target, verb).Some?
    ensures Suffix(target, verb).value == "/" + Operation(target)
  {
    match target
    case Manifest(reference) => Regroup("/manifests/", "manifests" + ['/'], reference);
    case Blob(digest) => Regroup("/blobs/", "blobs" + ['/'], digest);
    case UploadStart => assert "/blobs/uploads/" == "/" + "blobs/uploads/";
    case Upload(id) => Regroup("/blobs/uploads/", "blobs/uploads/", id);
  }

  lemma Regroup(slashed: string, word: string, rest: string)
    requires slashed == "/" + word
    ensures slashed + rest == "/" + (word + rest)
  {
  }

  /** Every request that is passed on goes to the origin at exactly the client's own path and query,
      but for the slash that may be missing after `uploads`; never to another repository. */
  lemma PassedOnUnchanged(origin: Origin, repository: string, verb: Verb, target: PathAndQuery)
    requires ValidRepository(repository) && Upstream(origin, repository, verb, target).Some?
    ensures Base(repository) <= target.path
    ensures var slash := if target.path == Base(repository) + "blobs/uploads" then "/" else "";
      Upstream(origin, repository, verb, target) ==
        Some(OriginText(origin) + (target.path + slash + QueryText(target.query)))
  {
    hide ParsePath, DistributionQuery, Suffix, ValidRepository, Base, OriginText, QueryText;
    PathPassedOn(repository, verb, target.path);
  }

  lemma PathPassedOn(repository: string, verb: Verb, path: string)
    requires ValidRepository(repository) && ParsePath(path, repository).Ok?
    requires Suffix(ParsePath(path, repository).value, verb).Some?
    ensures Base(repository) <= path
    ensures "/v2/" + repository + Suffix(ParsePath(path, repository).value, verb).value
      == path + if path == Base(repository) + "blobs/uploads" then "/" else ""
  {
    hide ParsePath, Operation, Suffix, NamesOperation, ValidRepository, Base;
    var parsed := ParsePath(path, repository).value;
    ParsePathIff(path, repository, parsed);
    SuffixIsOperation(parsed, verb, repository);
    VersionStaysHere(verb);
    var operation :| path == Base(repository) + operation && NamesOperation(operation, parsed);
    StartSlash(operation, parsed);
    SlashAppended(Base(repository), operation);
  }

  lemma SlashAppended(base: string, operation: string)
    ensures base + operation == base + "blobs/uploads" <==> operation == "blobs/uploads"
    ensures base + (operation + "/") == base + operation + "/"
    ensures base + operation + "" == base + operation
  {
    assert (base + operation)[|base|..] == operation;
    assert (base + "blobs/uploads")[|base|..] == "blobs/uploads";
  }

  lemma VersionStaysHere(verb: Verb)
    ensures Suffix(Version, verb).None?
  {
  }

  lemma StartSlash(operation: string, target: Target)
    requires NamesOperation(operation, target)
    ensures Operation(target) == if operation == "blobs/uploads" then operation + "/" else operation
  {
    assert "blobs/uploads" + "/" == "blobs/uploads/";
    if operation == "blobs/uploads" && !target.UploadStart? {
      OperationParses(target);
      SlashlessStart();
    }
  }

  // ---- Following a location ----

  /** The text of a target without question marks in its path parses back to it. */
  lemma TargetParses(target: PathAndQuery)
    requires '?' !in target.path
    ensures ParseTarget(TargetText(target)) == target
  {
    if target.query.None? {
      IndexOfAbsent(target.path, '?');
      assert target.path + "" == target.path;
    } else {
      var text := target.path + ['?'] + target.query.value;
      assert TargetText(target) == text;
      IndexOfConcat(target.path, '?', target.query.value);
      assert text[..|target.path|] == target.path && text[|target.path| + 1..] == target.query.value;
    }
  }

  lemma BaseIsPlain(repository: string)
    requires ValidRepository(repository)
    ensures Plain(Base(repository))
  {
    hide ValidRepository;
    RepositoryChars(repository);
    assert Plain("/v2/") && Plain("/");
    assert Plain(repository);
    PlainConcat(repository, "/");
    PlainConcat("/v2/", repository + "/");
  }

  lemma LocatedIsPlain(target: PathAndQuery, repository: string)
    requires ValidRepository(repository) && Locates(target, repository)
    ensures '?' !in target.path
  {
    hide ValidRepository, Base, SafeUploadId, ValidDigest, UpstreamQuery;
    BaseIsPlain(repository);
    PlainWords();
    if id :| LocatesUpload(target, repository, id) {
      PlainId(id);
      PlainConcat("blobs/uploads/", id);
      PlainConcat(Base(repository), "blobs/uploads/" + id);
    } else {
      var digest :| LocatesBlob(target, repository, digest);
      PlainDigest(digest);
      assert "blobs/" == "blobs" + ['/'];
      PlainConcat("blobs/", digest);
      PlainConcat(Base(repository), "blobs/" + digest);
    }
  }

  /** An upload query the rewriting lets through is one a client may send. */
  lemma UpstreamQueryIsClientQuery(query: string)
    requires UpstreamQuery(query)
    ensures ClientQuery(query)
  {
    hide Split, NoKeyTwice, SplitOnce;
    var parts := Split(query, '&');
    forall part | part in parts ensures GoodClientPart(part) && IsSafeText(part) {
      GoodPartIsSafe(part);
    }
    JoinOfSplit(query, '&');
    JoinIsSafe(parts);
  }

  lemma {:induction false} JoinIsSafe(parts: seq<string>)
    requires forall part | part in parts :: IsSafeText(part)
    ensures IsSafeText(Join(parts, '&'))
  {
    if |parts| == 1 {
      assert parts[0] in parts;
    } else if |parts| > 1 {
      assert parts[0] in parts && forall part | part in parts[1..] :: part in parts;
      JoinIsSafe(parts[1..]);
      SafeConcat(parts[0], ['&']);
      SafeConcat(parts[0] + ['&'], Join(parts[1..], '&'));
    }
  }

  lemma SafeConcat(a: string, b: string)
    requires IsSafeText(a) && IsSafeText(b)
    ensures IsSafeText(a + b)
  {
  }

  lemma GoodPartIsSafe(part: string)
    requires GoodUpstreamPart(part)
    ensures GoodClientPart(part) && IsSafeText(part)
  {
    hide ValidDigest, ValidSha256Digest, IsSafeText;
    var (key, value) := SplitOnce(part).value;
    SafeWords();
    if key == "digest" {
      PlainDigestIsClientDigest(value);
      ClientDigestIsSafe(value);
    }
    SafeConcat(key, ['=']);
    SafeConcat(key + ['='], value);
  }

  lemma SafeWords()
    ensures IsSafeText("_state") && IsSafeText("digest") && IsSafeText(['=']) && IsSafeText(['&'])
  {
  }

  lemma PlainDigestIsClientDigest(value: string)
    ensures ValidDigest(value) <==> ValidSha256Digest(value) && DIGEST_PREFIX <= value
  {
  }

  predicate IsInert(s: string) {
    forall c | c in s :: !IsControl(c) && c !in {'#', '&', '='}
  }

  lemma InertConcat(prefix: string, hex: string)
    requires IsInert(prefix) && AllLowerHex(hex)
    ensures IsInert(prefix + hex)
  {
  }

  lemma InertPrefixes()
    ensures IsInert("sha256:") && IsInert("sha256%3A") && IsInert("sha256%3a")
  {
  }

  lemma ClientDigestIsSafe(value: string)
    requires ValidSha256Digest(value)
    ensures IsInert(value)
    ensures IsSafeText(value) && '&' !in value && '=' !in value
  {
    hide AllLowerHex;
    InertPrefixes();
    var n := if DIGEST_PREFIX <= value then |DIGEST_PREFIX| else 9;
    assert value == value[..n] + value[n..];
    InertConcat(value[..n], value[n..]);
  }

  /** A digest parameter, if it is one, spells its colon plainly. */
  predicate ColonUnencoded(part: string) {
    SplitOnce(part).Some? && SplitOnce(part).value.0 == "digest" ==> DIGEST_PREFIX <= SplitOnce(part).value.1
  }

  /** The two upload validators agree but for the colon of a digest, which a client may also
      percent-encode: the rewriting lets through exactly the client queries that do not. */
  lemma QueriesAgree(query: string)
    ensures UpstreamQuery(query) <==>
      ClientQuery(query) && forall part | part in Split(query, '&') :: ColonUnencoded(part)
  {
    hide GoodUpstreamPart, GoodClientPart, NoKeyTwice, IsSafeText, Split, ColonUnencoded;
    if UpstreamQuery(query) {
      UpstreamQueryIsClientQuery(query);
    }
    forall part | part in Split(query, '&')
      ensures GoodUpstreamPart(part) ==> ColonUnencoded(part)
      ensures IsSafeText(query) && GoodClientPart(part) && ColonUnencoded(part) ==> GoodUpstreamPart(part)
    {
      PartIsSafe(query, part);
      PartsAgree(part);
    }
  }

  lemma PartsAgree(part: string)
    ensures GoodUpstreamPart(part) ==> ColonUnencoded(part)
    ensures IsSafeText(part) && GoodClientPart(part) && ColonUnencoded(part) ==> GoodUpstreamPart(part)
  {
    hide ValidDigest, ValidSha256Digest, IsSafeText;
    if SplitOnce(part).Some? {
      var (key, value) := SplitOnce(part).value;
      PlainDigestIsClientDigest(value);
      SafeSuffix(key + ['='], value);
    }
  }

  lemma SafeSuffix(a: string, b: string)
    ensures IsSafeText(a + b) ==> IsSafeText(b)
  {
    assert forall c | c in b :: c in a + b;
  }

  lemma PartIsSafe(query: string, part: string)
    requires part in Split(query, '&')
    ensures IsSafeText(query) ==> IsSafeText(part)
  {
    hide Split;
    JoinOfSplit(query, '&');
    forall c | c in part ensures c in query {
      JoinHolds(Split(query, '&'), part, c);
    }
  }

  lemma {:induction false} JoinHolds(parts: seq<string>, part: string, c: char)
    requires part in parts && c in part
    ensures c in Join(parts, '&')
  {
    if |parts| > 1 {
      var tail := Join(parts[1..], '&');
      if part == parts[0] {
        assert c in parts[0] + ['&'] + tail;
      } else {
        assert parts == [parts[0]] + parts[1..];
        JoinHolds(parts[1..], part, c);
        assert c in parts[0] + ['&'] + tail;
      }
    }
  }

  lemma UploadNamed(repository: string, id: string, path: string)
    requires ValidRepository(repository) && SafeUploadId(id) && path == Base(repository) + ("blobs/uploads/" + id)
    ensures |id| <= MAX_UPLOAD_ID_BYTES ==> ParsePath(path, repository) == Ok(Upload(id))
    ensures |id| > MAX_UPLOAD_ID_BYTES ==> ParsePath(path, repository).Err?
  {
    hide ValidRepository, SafeUploadId, Base, ParsePath;
    NamesAreAscii(repository);
    UnderBase(repository, "blobs/uploads/" + id);
    if |id| <= MAX_UPLOAD_ID_BYTES {
      OperationParses(Upload(id));
    } else {
      LongIdRefused(id);
    }
  }

  lemma LongIdRefused(id: string)
    requires |id| > MAX_UPLOAD_ID_BYTES
    ensures ParseOperation("blobs/uploads/" + id).Err?
  {
    assert ("blobs/uploads/" + id)[|"blobs/uploads/"|..] == id;
  }

  /** Following a rewritten upload location: the proxy asks the registry for exactly the origin's
      URL that the location named, if and only if the id has at most 512 characters. */
  lemma UploadLocationFollowed(origin: Origin, repository: string, target: PathAndQuery, id: string, verb: Verb)
    requires ValidRepository(repository) && LocatesUpload(target, repository, id) && verb in {PATCH, PUT, DELETE}
    ensures ParseTarget(TargetText(target)) == target
    ensures |id| <= 512 ==>
      Upstream(origin, repository, verb, target) == Some(OriginText(origin) + TargetText(target))
    ensures |id| > 512 ==> Upstream(origin, repository, verb, target).None?
  {
    hide ValidRepository, SafeUploadId, Base, UpstreamQuery, ClientQuery, ParsePath, ParseTarget;
    LocatedIsPlain(target, repository);
    TargetParses(target);
    UploadNamed(repository, id, target.path);
    if target.query.Some? {
      UpstreamQueryIsClientQuery(target.query.value);
    }
    if |id| <= MAX_UPLOAD_ID_BYTES {
      SuffixIsOperation(Upload(id), verb, repository);
    }
  }

  lemma BlobNamed(repository: string, digest: string, path: string)
    requires ValidRepository(repository) && ValidDigest(digest) && path == Base(repository) + ("blobs/" + digest)
    ensures ParsePath(path, repository) == Ok(Blob(digest))
    ensures Base(repository) + Operation(Blob(digest)) == path
  {
    hide ValidRepository, ValidDigest, Base, ParsePath;
    NamesAreAscii(repository);
    assert "blobs/" + digest == "blobs" + ['/'] + digest;
    UnderBase(repository, "blobs/" + digest);
    OperationParses(Blob(digest));
  }

  /** Following the location of a finished blob. */
  lemma BlobLocationFollowed(origin: Origin, repository: string, target: PathAndQuery, digest: string, verb: Verb)
    requires ValidRepository(repository) && LocatesBlob(target, repository, digest) && verb in {GET, HEAD, DELETE}
    ensures ParseTarget(TargetText(target)) == target
    ensures Upstream(origin, repository, verb, target) == Some(OriginText(origin) + TargetText(target))
  {
    hide ValidRepository, ValidDigest, Base, ParsePath, ParseTarget;
    LocatedIsPlain(target, repository);
    TargetParses(target);
    BlobNamed(repository, digest, target.path);
    SuffixIsOperation(Blob(digest), verb, repository);
  }

  // ---- Finishing an upload ----

  /** The location with the blob's digest appended, as a client does to finish the upload. */
  function WithDigest(target: PathAndQuery, digest: string): PathAndQuery {
    var part := "digest" + ['='] + digest;
    target.(query := Some(if target.query.None? then part else target.query.value + ['&'] + part))
  }

  lemma DigestPart(digest: string)
    requires ValidSha256Digest(digest)
    ensures var part := "digest" + ['='] + digest;
      GoodClientPart(part) && Key(part) == "digest" && IsSafeText(part) && Split(part, '&') == [part]
  {
    hide ValidSha256Digest, Split, IsSafeText, SplitOnce;
    ClientDigestIsSafe(digest);
    SplitOnceConcat("digest", digest);
    SafeWords();
    SafeConcat("digest", ['=']);
    SafeConcat("digest" + ['='], digest);
    assert '&' !in "digest" && '&' !in ['='];
    SplitWhole("digest" + ['='] + digest, '&');
  }

  /** A digest can be appended to a query exactly when it has none. */
  lemma AppendedQuery(query: string, digest: string)
    requires ClientQuery(query) && ValidSha256Digest(digest)
    ensures ClientQuery(query + ['&'] + ("digest" + ['='] + digest)) <==> !HasKey(Split(query, '&'), "digest")
  {
    hide ValidSha256Digest, Split, IsSafeText, GoodClientPart, Key;
    var part := "digest" + ['='] + digest;
    DigestPart(digest);
    var parts := Split(query, '&');
    SplitAppend(query, '&', part);
    var all := parts + [part];
    assert Split(query + ['&'] + part, '&') == all;
    SafeWords();
    SafeConcat(query, ['&']);
    SafeConcat(query + ['&'], part);
    assert all[..|parts| + 1] == all && all[..|parts|] == parts;
    OneMoreKey(all, |parts|);
  }

  lemma SingleQuery(digest: string)
    requires ValidSha256Digest(digest)
    ensures ClientQuery("digest" + ['='] + digest)
  {
    hide ValidSha256Digest, Split, IsSafeText, GoodClientPart, Key;
    DigestPart(digest);
  }

  /** The finishing PUT reaches the origin's URL with the digest appended, if and only if the id is
      not too long and the location did not carry a digest already. */
  lemma UploadFinished(origin: Origin, repository: string, target: PathAndQuery, id: string, digest: string)
    requires ValidRepository(repository) && LocatesUpload(target, repository, id) && ValidSha256Digest(digest)
    ensures var finished := WithDigest(target, digest);
      && ParseTarget(TargetText(finished)) == finished
      && Upstream(origin, repository, PUT, finished) ==
        if |id| <= 512 && (target.query.Some? ==> !HasKey(Split(target.query.value, '&'), "digest"))
        then Some(OriginText(origin) + TargetText(finished)) else None
  {
    hide ValidRepository, SafeUploadId, Base, UpstreamQuery, ClientQuery, ParsePath, ParseTarget, ValidSha256Digest,
      HasKey, Split;
    var finished := WithDigest(target, digest);
    LocatedIsPlain(target, repository);
    TargetParses(finished);
    UploadNamed(repository, id, target.path);
    if target.query.Some? {
      UpstreamQueryIsClientQuery(target.query.value);
      AppendedQuery(target.query.value, digest);
    } else {
      SingleQuery(digest);
    }
    if |id| <= MAX_UPLOAD_ID_BYTES {
      SuffixIsOperation(Upload(id), PUT, repository);
    }
  }
}
