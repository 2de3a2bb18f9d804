/** The stateful fixture registry: upload sessions, and manifests committed in two phases. */
module Registries {
  import opened Wrappers
  import opened Digests

  const MAX_BODY_BYTES := 64 * 1024 * 1024

  datatype Blob = Blob(content: Content, mediaType: string)

  /** One descriptor of a manifest, as JSON gave it; the media type is None when not a string. */
  datatype Entry = Entry(digest: string, mediaType: Option<string>, size: int) | Malformed

  /** The config and layer descriptors of a version 2 manifest; None for anything else. JSON itself
      is a parameter. */
  type Parser = Content -> Option<seq<Entry>>

  type Params = map<string, seq<string>>

  datatype Command = Patch | Put | Delete | Other

  datatype Store = Store(
    blobs: map<string, Blob>,
    manifests: map<string, Content>,
    uploads: map<string, Content>,
    uploadStates: map<string, string>)

  const EMPTY := Store(map[], map[], map[], map[])

  // ---- What each locked section does ----

  function Started(store: Store, id: string, state: string): Store {
    store.(uploads := store.uploads[id := []], uploadStates := store.uploadStates[id := state])
  }

  predicate InSession(store: Store, id: string, params: Params): (r: bool)
    ensures r ==> id in store.uploads && id in store.uploadStates
  {
    && id in store.uploads && id in store.uploadStates
    && "_state" in params && params["_state"] == [store.uploadStates[id]]
  }

  /** No parameter but the session's. */
  predicate ForPatch(params: Params) {
    params.Keys <= {"_state"}
  }

  /** No parameters but the session's and a single digest. */
  predicate ForPut(params: Params): (r: bool)
    ensures r ==> "digest" in params && |params["digest"]| == 1
  {
    params.Keys <= {"_state", "digest"} && "digest" in params && |params["digest"]| == 1
  }

  /** The status of an upload request. */
  function UploadStatus(sha: Digester, store: Store, id: string, command: Command, params: Params, body: Content): nat {
    if !InSession(store, id, params) then 404
    else
      var upload := store.uploads[id];
      match command
      case Patch =>
        if !ForPatch(params) then 400 else if |upload| + |body| > MAX_BODY_BYTES then 413 else 202
      case Put =>
        if !ForPut(params) then 400
        else if |upload| + |body| > MAX_BODY_BYTES then 413
        else if sha(upload + body) != params["digest"][0] then 400
        else 201
      case Delete => 204
      case Other => 405
  }

  /** A finishing request that fits keeps the body it brought even when its digest is refused. */
  predicate Appends(store: Store, id: string, command: Command, params: Params, body: Content) {
    && InSession(store, id, params)
    && |store.uploads[id]| + |body| <= MAX_BODY_BYTES
    && match command
       case Patch => ForPatch(params)
       case Put => ForPut(params)
       case _ => false
  }

  function Uploaded(sha: Digester, store: Store, id: string, command: Command, params: Params, body: Content): Store {
    var status := UploadStatus(sha, store, id, command, params, body);
    if status == 204 then
      store.(uploads := store.uploads - {id}, uploadStates := store.uploadStates - {id})
    else if status == 201 then
      store.(blobs := store.blobs[params["digest"][0] := Blob(store.uploads[id] + body, "application/octet-stream")],
             uploads := store.uploads - {id}, uploadStates := store.uploadStates - {id})
    else if Appends(store, id, command, params, body) then
      store.(uploads := store.uploads[id := store.uploads[id] + body])
    else store
  }

  // ---- The same, command by command ----

  lemma NoSessionEffect(sha: Digester, store: Store, id: string, command: Command, params: Params, body: Content)
    requires !InSession(store, id, params)
    ensures UploadStatus(sha, store, id, command, params, body) == 404
    ensures Uploaded(sha, store, id, command, params, body) == store
  {
    hide InSession;
  }

  lemma PatchEffect(sha: Digester, store: Store, id: string, params: Params, body: Content)
    requires InSession(store, id, params)
    ensures UploadStatus(sha, store, id, Patch, params, body) ==
      if !ForPatch(params) then 400 else if |store.uploads[id]| + |body| > MAX_BODY_BYTES then 413 else 202
    ensures Uploaded(sha, store, id, Patch, params, body) ==
      if !ForPatch(params) || |store.uploads[id]| + |body| > MAX_BODY_BYTES then store
      else store.(uploads := store.uploads[id := store.uploads[id] + body])
  {
    hide InSession, ForPatch;
  }

  lemma PutEffect(sha: Digester, store: Store, id: string, params: Params, body: Content)
    requires InSession(store, id, params)
    ensures var upload := store.uploads[id];
      UploadStatus(sha, store, id, Put, params, body) ==
        if !ForPut(params) then 400 else if |upload| + |body| > MAX_BODY_BYTES then 413
        else if sha(upload + body) != params["digest"][0] then 400 else 201
    ensures var upload := store.uploads[id];
      Uploaded(sha, store, id, Put, params, body) ==
        if !ForPut(params) || |upload| + |body| > MAX_BODY_BYTES then store
        else if sha(upload + body) != params["digest"][0] then store.(uploads := store.uploads[id := upload + body])
        else Store(store.blobs[params["digest"][0] := Blob(upload + body, "application/octet-stream")],
                   store.manifests, store.uploads - {id}, store.uploadStates - {id})
  {
    hide InSession, ForPut;
  }

  lemma OtherEffect(sha: Digester, store: Store, id: string, command: Command, params: Params, body: Content)
    requires InSession(store, id, params) && (command == Delete || command == Other)
    ensures UploadStatus(sha, store, id, command, params, body) == if command == Delete then 204 else 405
    ensures Uploaded(sha, store, id, command, params, body) ==
      if command == Delete then store.(uploads := store.uploads - {id}, uploadStates := store.uploadStates - {id})
      else store
  {
    hide InSession;
  }

  datatype Verified = Verified(digest: string, content: Content, mediaType: string)

  /** The unlocked check of one descriptor. */
  function Check(sha: Digester, blobs: map<string, Blob>, entry: Entry): Option<Verified> {
    if entry.Malformed? || entry.mediaType.None? || entry.digest !in blobs then None
    else
      var content := blobs[entry.digest].content;
      if |content| != entry.size || sha(content) != entry.digest then None
      else Some(Verified(entry.digest, content, entry.mediaType.value))
  }

  function WithBlobs(blobs: map<string, Blob>, verified: seq<Verified>): map<string, Blob> {
    if verified == [] then blobs else
      var last := verified[|verified| - 1];
      WithBlobs(blobs, verified[..|verified| - 1])[last.digest := Blob(last.content, last.mediaType)]
  }

  function Committed(sha: Digester, store: Store, reference: string, body: Content, verified: seq<Verified>): Store {
    store.(
      blobs := WithBlobs(store.blobs, verified),
      manifests := store.manifests[reference := body][sha(body) := body])
  }

  function WithoutContent(manifests: map<string, Content>, content: Content): map<string, Content> {
    map name | name in manifests && manifests[name] != content :: manifests[name]
  }

  // ---- The registry ----

  class RegistryState {
    var blobs: map<string, Blob>
    var manifests: map<string, Content>
    var uploads: map<string, Content>
    var uploadStates: map<string, string>

    ghost function State(): Store
      reads this
    {
      Store(blobs, manifests, uploads, uploadStates)
    }

    constructor ()
      ensures State() == EMPTY
    {
      blobs, manifests, uploads, uploadStates := map[], map[], map[], map[];
    }

    method StartUpload(id: string, state: string)
      modifies this
      ensures State() == Started(old(State()), id, state)
    {
      uploads := uploads[id := []];
      uploadStates := uploadStates[id := state];
    }

    /** The locked part of `_upload`. */
    method Upload(sha: Digester, id: string, command: Command, params: Params, body: Content) returns (status: nat)
      modifies this
      ensures status == UploadStatus(sha, old(State()), id, command, params, body)
      ensures State() == Uploaded(sha, old(State()), id, command, params, body)
    {
      hide InSession, ForPatch, ForPut, UploadStatus, Uploaded;
      ghost var store := State();
      if !InSession(Store(blobs, manifests, uploads, uploadStates), id, params) {
        NoSessionEffect(sha, store, id, command, params, body);
        return 404;
      }
      var upload := uploads[id];
      match command {
        case Patch =>
          PatchEffect(sha, store, id, params, body);
          if !ForPatch(params) {
            return 400;
          }
          status := Append(id, body);
        case Put =>
          PutEffect(sha, store, id, params, body);
          if !ForPut(params) {
            return 400;
          }
          if |upload| + |body| > MAX_BODY_BYTES {
            return 413;
          }
          status := Finish(sha, id, params["digest"][0], body);
        case Delete =>
          OtherEffect(sha, store, id, command, params, body);
          uploads := uploads - {id};
          uploadStates := uploadStates - {id};
          return 204;
        case Other =>
          OtherEffect(sha, store, id, command, params, body);
          return 405;
      }
    }

    /** Extends the upload unless it would grow too large. */
    method Append(id: string, body: Content) returns (status: nat)
      requires id in uploads
      modifies this
      ensures status == if |old(uploads)[id]| + |body| > MAX_BODY_BYTES then 413 else 202
      ensures status == 413 ==> State() == old(State())
      ensures status == 202 ==> State() == old(State()).(uploads := old(uploads)[id := old(uploads)[id] + body])
    {
      if |uploads[id]| + |body| > MAX_BODY_BYTES {
        return 413;
      }
      uploads := uploads[id := uploads[id] + body];
      return 202;
    }

    /** Extends the upload, and turns it into a blob when its digest is the expected one. */
    method Finish(sha: Digester, id: string, expected: string, body: Content) returns (status: nat)
      requires id in uploads
      modifies this
      ensures status == if sha(old(uploads)[id] + body) == expected then 201 else 400
      ensures status == 400 ==> State() == old(State()).(uploads := old(uploads)[id := old(uploads)[id] + body])
      ensures status == 201 ==>
        State() == Store(old(blobs)[expected := Blob(old(uploads)[id] + body, "application/octet-stream")],
        old(manifests), old(uploads) - {id}, old(uploadStates) - {id})
    {
      uploads := uploads[id := uploads[id] + body];
      var digest := sha(uploads[id]);
      if digest != expected {
        return 400;
      }
      blobs := blobs[digest := Blob(uploads[id], "application/octet-stream")];
      uploads := uploads - {id};
      uploadStates := uploadStates - {id};
      return 201;
    }

    method DeleteBlob(digest: string) returns (status: nat)
      modifies this
      ensures State() == old(State()).(blobs := old(blobs) - {digest})
      ensures status == if digest in old(blobs) then 202 else 404
    {
      status := if digest in blobs then 202 else 404;
      blobs := blobs - {digest};
    }

    /** The check of a whole manifest while nothing interferes. */
    method CheckAll(sha: Digester, entries: seq<Entry>) returns (verified: Option<seq<Verified>>)
      ensures verified.Some? <==> forall entry | entry in entries :: Check(sha, blobs, entry).Some?
      ensures verified.Some? ==> |verified.value| == |entries|
      ensures verified.Some? ==>
        forall i | 0 <= i < |entries| :: Check(sha, blobs, entries[i]) == Some(verified.value[i])
    {
      var done := [];
      var i := 0;
      while i < |entries|
        invariant 0 <= i <= |entries| && |done| == i
        invariant forall j | 0 <= j < i :: Check(sha, blobs, entries[j]) == Some(done[j])
      {
        var next := Check(sha, blobs, entries[i]);
        if next.None? {
          assert entries[i] in entries;
          return None;
        }
        done := done + [next.value];
        i := i + 1;
      }
      return Some(done);
    }

    /** The locked commit. */
    method Commit(sha: Digester, reference: string, body: Content, verified: seq<Verified>)
      modifies this
      ensures State() == Committed(sha, old(State()), reference, body, verified)
    {
      var digest := sha(body);
      var i := 0;
      while i < |verified|
        invariant 0 <= i <= |verified|
        invariant blobs == WithBlobs(old(blobs), verified[..i])
        invariant manifests == old(manifests) && uploads == old(uploads) && uploadStates == old(uploadStates)
      {
        assert verified[..i + 1][..i] == verified[..i];
        blobs := blobs[verified[i].digest := Blob(verified[i].content, verified[i].mediaType)];
        i := i + 1;
      }
      assert verified[..i] == verified;
      manifests := manifests[reference := body];
      manifests := manifests[digest := body];
    }

    /** The locked removal of every name of a manifest. */
    method RemoveContent(content: Content)
      modifies this
      ensures forall name :: name in manifests <==> name in old(manifests) && old(manifests)[name] != content
      ensures forall name | name in manifests :: manifests[name] == old(manifests)[name]
      ensures blobs == old(blobs) && uploads == old(uploads) && uploadStates == old(uploadStates)
      ensures State() == old(State()).(manifests := WithoutContent(old(manifests), content))
    {
      var names := manifests.Keys;
      while names != {}
        invariant names <= old(manifests).Keys
        invariant blobs == old(blobs) && uploads == old(uploads) && uploadStates == old(uploadStates)
        invariant forall name | name in manifests :: name in old(manifests) && manifests[name] == old(manifests)[name]
        invariant forall name | name in old(manifests) ::
          name in manifests <==> name in names || old(manifests)[name] != content
        decreases names
      {
        var name :| name in names;
        if manifests[name] == content {
          manifests := manifests - {name};
        }
        names := names - {name};
      }
    }
  }
}
