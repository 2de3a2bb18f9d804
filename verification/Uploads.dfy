/** Query strings of upload requests: the parts that an upstream location, a client's request and a
    mount may have, and the checks that decide it. */
module Uploads {
  import opened Wrappers
  import opened Text
  import opened Digests
  import opened Challenges

  const MAX_UPLOAD_ID_BYTES := 512
  const MAX_REFERENCE_BYTES := 256

  // ---- Query parts ----

  /** `split_once('=')`. */
  function SplitOnce(part: string): (r: Option<(string, string)>)
    ensures r.Some? ==> '=' !in r.value.0 && part == r.value.0 + ['='] + r.value.1
  {
    var i := IndexOf(part, '=');
    if i == |part| then None else Some((part[..i], part[i + 1..]))
  }

  lemma SplitOnceConcat(key: string, value: string)
    requires '=' !in key
    ensures SplitOnce(key + ['='] + value) == Some((key, value))
  {
    IndexOfConcat(key, '=', value);
    var s := key + ['='] + value;
    assert s[..|key|] == key && s[|key| + 1..] == value;
  }

  /** No control character and no fragment mark. */
  predicate IsSafeText(s: string) {
    forall c | c in s :: !IsControl(c) && c != '#'
  }

  /** `valid_sha256_digest`: the colon may also be percent-encoded. */
  predicate ValidSha256Digest(value: string) {
    && (DIGEST_PREFIX <= value || "sha256%3A" <= value || "sha256%3a" <= value)
    && var hex := if DIGEST_PREFIX <= value then value[|DIGEST_PREFIX|..] else value[|"sha256%3A"|..];
      |hex| == 64 && AllLowerHex(hex)
  }

  function Key(part: string): string {
    if SplitOnce(part).Some? then SplitOnce(part).value.0 else part
  }

  ghost predicate HasKey(parts: seq<string>, key: string) {
    exists i :: 0 <= i < |parts| && Key(parts[i]) == key
  }

  ghost predicate NoKeyTwice(parts: seq<string>) {
    forall i, j | 0 <= i < j < |parts| :: Key(parts[i]) != Key(parts[j])
  }

  /** A part the rewriting of an upstream location lets through. */
  predicate GoodUpstreamPart(part: string) {
    && SplitOnce(part).Some?
    && var (key, value) := SplitOnce(part).value;
      (key == "_state" && value != "" && IsSafeText(value)) || (key == "digest" && ValidDigest(value))
  }

  /** A part a client may send with an upload request. */
  predicate GoodClientPart(part: string) {
    && SplitOnce(part).Some?
    && var (key, value) := SplitOnce(part).value;
      (key == "_state" && value != "") || (key == "digest" && ValidSha256Digest(value))
  }

  /** Each of `_state` and `digest` at most once, at least one of them, and nothing else. */
  ghost predicate UpstreamQuery(query: string) {
    var parts := Split(query, '&');
    (forall part | part in parts :: GoodUpstreamPart(part)) && NoKeyTwice(parts)
  }

  ghost predicate ClientQuery(query: string) {
    var parts := Split(query, '&');
    IsSafeText(query) && (forall part | part in parts :: GoodClientPart(part)) && NoKeyTwice(parts)
  }

  lemma EmptyQuery()
    ensures Split("", '&') == [""] && "" in Split("", '&') && SplitOnce("").None?
  {
  }

  lemma NoKeysYet(parts: seq<string>, key: string)
    ensures !HasKey(parts[..0], key) && NoKeyTwice(parts[..0])
  {
  }

  lemma FirstKeyHeld(parts: seq<string>)
    requires parts != []
    ensures HasKey(parts, Key(parts[0]))
  {
  }

  lemma OneMoreKey(parts: seq<string>, i: nat)
    requires i < |parts|
    ensures forall key :: HasKey(parts[..i + 1], key) <==> HasKey(parts[..i], key) || Key(parts[i]) == key
    ensures NoKeyTwice(parts[..i + 1]) <==> NoKeyTwice(parts[..i]) && !HasKey(parts[..i], Key(parts[i]))
    ensures NoKeyTwice(parts) ==> NoKeyTwice(parts[..i + 1])
  {
    hide Key;
    var before, after := parts[..i], parts[..i + 1];
    assert forall j | 0 <= j < i :: before[j] == after[j];
    assert after[i] == parts[i];
    forall key ensures HasKey(after, key) <==> HasKey(before, key) || Key(parts[i]) == key {
      if HasKey(before, key) {
        var j :| 0 <= j < i && Key(before[j]) == key;
        assert Key(after[j]) == key;
      }
    }
  }

  /** `valid_upload_query`. */
  method ValidUploadQuery(query: string) returns (ok: bool)
    ensures ok <==> UpstreamQuery(query)
  {
    hide ValidDigest, IsSafeText, Split, SplitOnce, HasKey, NoKeyTwice;
    if query == "" {
      EmptyQuery();
      return false;
    }
    var stateSeen, digestSeen := false, false;
    var parts := Split(query, '&');
    var i := 0;
    NoKeysYet(parts, "_state");
    NoKeysYet(parts, "digest");
    while i < |parts|
      invariant 0 <= i <= |parts|
      invariant forall j | 0 <= j < i :: GoodUpstreamPart(parts[j])
      invariant stateSeen <==> HasKey(parts[..i], "_state")
      invariant digestSeen <==> HasKey(parts[..i], "digest")
      invariant NoKeyTwice(parts[..i])
    {
      assert parts[i] in parts;
      var split := SplitOnce(parts[i]);
      if split.None? {
        return false;
      }
      var (key, value) := split.value;
      OneMoreKey(parts, i);
      if key == "_state" && !stateSeen && value != "" && IsSafeText(value) {
        stateSeen := true;
      } else if key == "digest" && !digestSeen && ValidDigest(value) {
        digestSeen := true;
      } else {
        return false;
      }
      i := i + 1;
    }
    assert parts[..i] == parts && Key(parts[0]) in {"_state", "digest"};
    FirstKeyHeld(parts);
    return stateSeen || digestSeen;
  }

  /** The upload branch of `valid_distribution_query`. */
  method ValidClientQuery(query: string) returns (ok: bool)
    ensures ok <==> ClientQuery(query)
  {
    hide ValidSha256Digest, IsSafeText, Split, SplitOnce, HasKey, NoKeyTwice;
    if query == "" || !IsSafeText(query) {
      EmptyQuery();
      return false;
    }
    var stateSeen, digestSeen := false, false;
    var parts := Split(query, '&');
    var i := 0;
    NoKeysYet(parts, "_state");
    NoKeysYet(parts, "digest");
    while i < |parts|
      invariant 0 <= i <= |parts|
      invariant forall j | 0 <= j < i :: GoodClientPart(parts[j])
      invariant stateSeen <==> HasKey(parts[..i], "_state")
      invariant digestSeen <==> HasKey(parts[..i], "digest")
      invariant NoKeyTwice(parts[..i])
    {
      assert parts[i] in parts;
      var split := SplitOnce(parts[i]);
      if split.None? {
        return false;
      }
      var (key, value) := split.value;
      OneMoreKey(parts, i);
      if key == "_state" && !stateSeen && value != "" {
        stateSeen := true;
      } else if key == "digest" && !digestSeen && ValidSha256Digest(value) {
        digestSeen := true;
      } else {
        return false;
      }
      i := i + 1;
    }
    assert parts[..i] == parts && Key(parts[0]) in {"_state", "digest"};
    FirstKeyHeld(parts);
    return stateSeen || digestSeen;
  }

  /** A cross-repository mount from this very repository: both parameters, once each. */
  ghost predicate MountQuery(query: string, repository: string) {
    var parts := Split(query, '&');
    && IsSafeText(query) && (forall part | part in parts :: GoodMountPart(part, repository))
    && NoKeyTwice(parts) && HasKey(parts, "mount") && HasKey(parts, "from")
  }

  predicate GoodMountPart(part: string, repository: string) {
    && SplitOnce(part).Some?
    && var (key, value) := SplitOnce(part).value;
      (key == "mount" && ValidSha256Digest(value)) || (key == "from" && value == repository)
  }

  /** The mount branch of `valid_distribution_query`. */
  method ValidMountQuery(query: string, repository: string) returns (ok: bool)
    ensures ok <==> MountQuery(query, repository)
  {
    hide ValidSha256Digest, IsSafeText, Split, SplitOnce, HasKey, NoKeyTwice;
    if query == "" || !IsSafeText(query) {
      EmptyQuery();
      return false;
    }
    var mount, from := None, None;
    var parts := Split(query, '&');
    var i := 0;
    NoKeysYet(parts, "mount");
    NoKeysYet(parts, "from");
    while i < |parts|
      invariant 0 <= i <= |parts|
      invariant forall j | 0 <= j < i :: GoodMountPart(parts[j], repository)
      invariant mount.Some? <==> HasKey(parts[..i], "mount")
      invariant from.Some? <==> HasKey(parts[..i], "from")
      invariant NoKeyTwice(parts[..i])
    {
      assert parts[i] in parts;
      var split := SplitOnce(parts[i]);
      if split.None? {
        return false;
      }
      var (key, value) := split.value;
      OneMoreKey(parts, i);
      if key == "mount" && mount.None? && ValidSha256Digest(value) {
        mount := Some(value);
      } else if key == "from" && from.None? && value == repository {
        from := Some(value);
      } else {
        return false;
      }
      i := i + 1;
    }
    assert parts[..i] == parts;
    return mount.Some? && from.Some?;
  }
}
