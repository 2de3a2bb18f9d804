/** Targets of distribution requests, and the parsing of request paths under one repository: a path
    parses to exactly the target it names. */
module Forwarding {
  import opened Wrappers
  import opened Text
  import opened Digests
  import opened Challenges
  import opened Locators
  import opened Paths
  import opened Uploads

  datatype Verb = GET | HEAD | POST | PATCH | PUT | DELETE

  datatype Target =
    | Version
    | Manifest(reference: string)
    | Blob(digest: string)
    | UploadStart
    | Upload(id: string)

  datatype PathFailure = InvalidPath | RepositoryMismatch

  function StripPrefix(s: string, prefix: string): (r: Option<string>)
    ensures r.Some? <==> prefix <= s
    ensures r.Some? ==> s == prefix + r.value
  {
    if prefix <= s then Some(s[|prefix|..]) else None
  }

  predicate IsIdChar(c: char) {
    IsAlphanumeric(c) || c in {'.', '_', '-'}
  }

  /** What the rewriting of locations asks of an upload id: no bound on its length. */
  predicate SafeUploadId(id: string) {
    id != "" && id != "." && id != ".." && forall c | c in id :: IsIdChar(c)
  }

  /** `valid_upload_id`. */
  predicate ValidUploadId(id: string) {
    SafeUploadId(id) && |id| <= MAX_UPLOAD_ID_BYTES
  }

  /** `valid_reference`. */
  predicate ValidReference(reference: string) {
    && 0 < |reference| <= MAX_REFERENCE_BYTES
    && reference[0] != '.' && reference[|reference| - 1] != '.'
    && forall c | c in reference :: IsIdChar(c) || c == ':'
  }

  predicate Plain(operation: string) {
    forall c | c in operation :: c !in {'?', '#', '%', '\\'}
  }

  /** `parse_path`. */
  function ParsePath(path: string, repository: string): Result<Target, PathFailure> {
    if path == "/v2/" then Ok(Version) else
      match StripPrefix(path, "/v2/")
      case None => Err(InvalidPath)
      case Some(remainder) =>
        if remainder == repository then Err(InvalidPath) else
          match StripPrefix(remainder, repository + "/")
          case None => Err(RepositoryMismatch)
          case Some(operation) => ParseOperation(operation)
  }

  function ParseOperation(operation: string): Result<Target, PathFailure> {
    if operation == "" || !Plain(operation) then Err(InvalidPath)
    else if operation == "blobs/uploads" || operation == "blobs/uploads/" then Ok(UploadStart)
    else if "blobs/uploads/" <= operation then
      var id := operation[|"blobs/uploads/"|..];
      if ValidUploadId(id) then Ok(Upload(id)) else Err(InvalidPath)
    else
      var i := IndexOf(operation, '/');
      if i == |operation| then Err(InvalidPath) else
        var kind, value := operation[..i], operation[i + 1..];
        if value == "" || '/' in value || exists c | c in value :: IsControl(c) then Err(InvalidPath)
        else if kind == "manifests" && ValidReference(value) then Ok(Manifest(value))
        else if kind == "blobs" && ValidDigest(value) then Ok(Blob(value))
        else Err(InvalidPath)
  }

  predicate ValidTarget(target: Target) {
    match target
    case Version => true
    case Manifest(reference) => ValidReference(reference)
    case Blob(digest) => ValidDigest(digest)
    case UploadStart => true
    case Upload(id) => ValidUploadId(id)
  }

  /** What a target does to its repository, as a path below it; the version check has none. */
  function Operation(target: Target): string {
    match target
    case Version => ""
    case Manifest(reference) => "manifests" + ['/'] + reference
    case Blob(digest) => "blobs" + ['/'] + digest
    case UploadStart => "blobs/uploads/"
    case Upload(id) => "blobs/uploads/" + id
  }

  function Base(repository: string): string {
    "/v2/" + (repository + "/")
  }

  lemma PlainConcat(a: string, b: string)
    requires Plain(a) && Plain(b)
    ensures Plain(a + b)
  {
  }

  lemma PlainWords()
    ensures Plain("manifests" + ['/']) && Plain("blobs" + ['/']) && Plain("blobs/uploads/") && Plain("blobs/uploads")
  {
    assert Plain("manifests") && Plain("blobs") && Plain(['/']);
    PlainConcat("manifests", ['/']);
    PlainConcat("blobs", ['/']);
    assert Plain("blobs/uploads/");
    assert Plain("blobs/uploads");
  }

  /** A name of one path segment that needs no escaping. */
  predicate IsPlainName(s: string) {
    Plain(s) && s != "" && '/' !in s && forall c | c in s :: !IsControl(c)
  }

  lemma PlainReference(reference: string)
    requires ValidReference(reference)
    ensures IsPlainName(reference)
  {
  }

  lemma PlainDigest(digest: string)
    requires ValidDigest(digest)
    ensures IsPlainName(digest)
  {
    DigestChars(digest);
  }

  lemma PlainId(id: string)
    requires SafeUploadId(id)
    ensures IsPlainName(id)
  {
  }

  lemma PlainOperation(target: Target)
    requires ValidTarget(target)
    ensures Plain(Operation(target))
  {
    hide Plain, ValidReference, ValidDigest, SafeUploadId;
    PlainWords();
    match target
    case Version => PlainNothing();
    case Manifest(reference) =>
      PlainReference(reference);
      PlainConcat("manifests" + ['/'], reference);
    case Blob(digest) =>
      PlainDigest(digest);
      PlainConcat("blobs" + ['/'], digest);
    case UploadStart =>
    case Upload(id) =>
      PlainId(id);
      PlainConcat("blobs/uploads/", id);
  }

  lemma PlainNothing()
    ensures Plain("")
  {
  }

  lemma DigestChars(digest: string)
    requires ValidDigest(digest)
    ensures forall c | c in digest :: IsLowerHex(c) || c in DIGEST_PREFIX
  {
    assert digest == DIGEST_PREFIX + digest[|DIGEST_PREFIX|..];
  }

  lemma OperationParses(target: Target)
    requires ValidTarget(target) && !target.Version?
    ensures ParseOperation(Operation(target)) == Ok(target)
  {
    hide Plain, ValidReference, ValidDigest, ValidUploadId, IndexOf, IsControl;
    PlainOperation(target);
    var operation := Operation(target);
    match target
    case Manifest(reference) =>
      KindAndValue("manifests", reference);
      PlainReference(reference);
    case Blob(digest) =>
      KindAndValue("blobs", digest);
      PlainDigest(digest);
      DigestIsNoUpload(digest);
    case UploadStart =>
    case Upload(id) =>
      assert operation[|"blobs/uploads/"|..] == id;
      UploadIdIsSafe(id);
      PlainId(id);
  }

  lemma UploadIdIsSafe(id: string)
    requires ValidUploadId(id)
    ensures SafeUploadId(id)
  {
  }

  lemma KindAndValue(kind: string, value: string)
    requires '/' !in kind
    ensures var s := kind + ['/'] + value;
      IndexOf(s, '/') == |kind| && s[..|kind|] == kind && s[|kind| + 1..] == value
  {
    IndexOfConcat(kind, '/', value);
  }

  lemma DigestIsNoUpload(digest: string)
    requires ValidDigest(digest)
    ensures digest != ""
    ensures var s := "blobs" + ['/'] + digest;
      s != "blobs/uploads" && s != "blobs/uploads/" && !("blobs/uploads/" <= s)
  {
    var s := "blobs" + ['/'] + digest;
    assert digest[0] == 's' && s[6] == digest[0] && "blobs/uploads/"[6] == 'u' && "blobs/uploads"[6] == 'u';
  }

  lemma ParsedOperation(operation: string)
    requires ParseOperation(operation).Ok?
    ensures NamesOperation(operation, ParseOperation(operation).value)
  {
    hide Plain, ValidReference, ValidDigest, ValidUploadId, IsControl, IndexOf;
    if "blobs/uploads/" <= operation {
      assert operation == "blobs/uploads/" + operation[|"blobs/uploads/"|..];
    } else if operation != "blobs/uploads" {
      ParsedKind(operation);
    }
  }

  lemma ParsedKind(operation: string)
    requires ParseOperation(operation).Ok? && !("blobs/uploads/" <= operation) && operation != "blobs/uploads"
    ensures NamesOperation(operation, ParseOperation(operation).value)
  {
    hide Plain, ValidReference, ValidDigest, ValidUploadId, IsControl;
    var i := IndexOf(operation, '/');
    assert operation == operation[..i] + ['/'] + operation[i + 1..];
  }

  ghost predicate NamesOperation(operation: string, target: Target) {
    && ValidTarget(target) && !target.Version?
    && (operation == Operation(target) || (target.UploadStart? && operation == "blobs/uploads"))
  }

  /** The paths of a target; the slash after `uploads` is optional. */
  ghost predicate Names(path: string, repository: string, target: Target) {
    if target.Version? then path == "/v2/"
    else exists operation :: path == Base(repository) + operation && NamesOperation(operation, target)
  }

  lemma ParsedNames(path: string, repository: string)
    requires repository != "" && ParsePath(path, repository).Ok?
    ensures Names(path, repository, ParsePath(path, repository).value)
  {
    hide ParseOperation, NamesOperation;
    if path != "/v2/" {
      var operation := path[|Base(repository)|..];
      assert path == Base(repository) + operation;
      UnderBase(repository, operation);
      ParsedOperation(operation);
      NotVersion(operation, ParseOperation(operation).value);
    }
  }

  lemma NotVersion(operation: string, target: Target)
    requires NamesOperation(operation, target)
    ensures !target.Version?
  {
  }

  lemma NamedParses(path: string, repository: string, target: Target)
    requires repository != "" && Names(path, repository, target)
    ensures ParsePath(path, repository) == Ok(target)
  {
    hide ParseOperation, NamesOperation, Base;
    if !target.Version? {
      var operation :| path == Base(repository) + operation && NamesOperation(operation, target);
      NamedOperation(operation, target);
      UnderBase(repository, operation);
    }
  }

  lemma NamedOperation(operation: string, target: Target)
    requires NamesOperation(operation, target)
    ensures ParseOperation(operation) == Ok(target)
  {
    hide ParseOperation, ValidTarget;
    if operation == Operation(target) {
      OperationParses(target);
    } else {
      SlashlessStart();
    }
  }

  /** The path parser accepts exactly the paths of valid targets of this repository, and each names
      one target. */
  lemma ParsePathIff(path: string, repository: string, target: Target)
    requires ValidRepository(repository)
    ensures ParsePath(path, repository) == Ok(target) <==> Names(path, repository, target)
  {
    hide ParsePath, Names, ValidRepository;
    NamesAreAscii(repository);
    if Names(path, repository, target) {
      NamedParses(path, repository, target);
    } else if ParsePath(path, repository).Ok? {
      ParsedNames(path, repository);
    }
  }

  lemma SlashlessStart()
    ensures ParseOperation("blobs/uploads") == Ok(UploadStart)
  {
    PlainWords();
  }

  lemma UnderBase(repository: string, operation: string)
    requires repository != ""
    ensures ParsePath(Base(repository) + operation, repository) == ParseOperation(operation)
  {
    hide ParseOperation;
    var path := Base(repository) + operation;
    assert path == "/v2/" + (repository + "/" + operation);
    assert path[|"/v2/"|..] == repository + "/" + operation;
    assert |path| > 4;
    assert (repository + "/" + operation)[|repository + "/"|..] == operation;
  }
}
