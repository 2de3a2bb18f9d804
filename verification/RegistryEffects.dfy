/** What clients of the fixture registry get: which requests are refused, and what an upload, a manifest
    and a deletion leave behind from their first step to their last. */
module RegistryEffects {
  import opened Wrappers
  import opened Digests
  import opened Registries
  import opened RegistrySystem

  // ---- Deletion ----

  /** Deleting a manifest removes all names of its content, whatever was put in between, and no other. */
  lemma DeletionTells(sha: Digester, parse: Parser, sys: System, task: nat)
    requires task in sys.deletes
    ensures var before, after := sys.store, Step(sha, parse, sys, FinishDelete(task)).store;
      && (forall name :: name in after.manifests <==>
        name in before.manifests && before.manifests[name] != sys.deletes[task])
      && (forall name | name in after.manifests :: after.manifests[name] == before.manifests[name])
      && after.blobs == before.blobs && after.uploads == before.uploads && after.uploadStates == before.uploadStates
  {
  }

  /** A deletion that nothing interrupts removes every name of what the reference names. */
  lemma DeletionCourse(sha: Digester, parse: Parser, sys: System, task: nat, reference: string)
    requires task !in sys.deletes
    ensures var before := sys.store.manifests;
      var begun := Step(sha, parse, sys, BeginDelete(task, reference));
      var after := Step(sha, parse, begun, FinishDelete(task)).store.manifests;
      && (reference !in before ==> after == before)
      && (reference in before ==> forall name ::
        name in after <==> name in before && before[name] != before[reference])
  {
  }

  /** A blob is deleted under its digest alone; a new session is empty; neither touches anything else. */
  lemma SmallSteps(sha: Digester, parse: Parser, sys: System, digest: string, id: string, state: string)
    ensures var before, after := sys.store, Step(sha, parse, sys, DeleteBlob(digest)).store;
      && (forall d :: d in after.blobs <==> d in before.blobs && d != digest)
      && (forall d | d in after.blobs :: after.blobs[d] == before.blobs[d])
      && after.manifests == before.manifests
      && after.uploads == before.uploads && after.uploadStates == before.uploadStates
    ensures var before, after := sys.store, Step(sha, parse, sys, Start(id, state)).store;
      && after == before.(uploads := before.uploads[id := []], uploadStates := before.uploadStates[id := state])
  {
  }

  // ---- Uploads ----

  /** The request belongs to the session: it carries the state that was handed out, once. */
  ghost predicate Belongs(store: Store, id: string, params: Params) {
    && id in store.uploads && id in store.uploadStates
    && "_state" in params && params["_state"] == [store.uploadStates[id]]
  }

  /** Every refusal, in the order of the checks; nothing changes, but that a finishing request whose
      digest is wrong has added its body to the session. */
  lemma UploadRefused(sha: Digester, store: Store, id: string, command: Command, params: Params, body: Content)
    ensures var status := UploadStatus(sha, store, id, command, params, body);
      var after := Uploaded(sha, store, id, command, params, body);
      var foreign := exists key :: key in params && key != "_state" && (command == Put ==> key != "digest");
      var digests := if "digest" in params then |params["digest"]| else 0;
      if !Belongs(store, id, params) then status == 404 && after == store
      else if command == Other then status == 405 && after == store
      else if command == Delete then
        && status == 204
        && after == store.(uploads := store.uploads - {id}, uploadStates := store.uploadStates - {id})
      else if foreign || (command == Put && digests != 1) then status == 400 && after == store
      else if |store.uploads[id]| + |body| > 67_108_864 then status == 413 && after == store
      else if command == Patch then
        status == 202 && after == store.(uploads := store.uploads[id := store.uploads[id] + body])
      else if sha(store.uploads[id] + body) != params["digest"][0] then
        status == 400 && after == store.(uploads := store.uploads[id := store.uploads[id] + body])
      else status == 201
  {
    hide InSession, ForPatch, ForPut;
    ParamsTell(store, id, params);
  }

  lemma ParamsTell(store: Store, id: string, params: Params)
    ensures InSession(store, id, params) <==> Belongs(store, id, params)
    ensures ForPatch(params) <==> !exists key :: key in params && key != "_state"
    ensures ForPut(params) <==>
      && !(exists key :: key in params && key != "_state" && key != "digest")
      && "digest" in params && |params["digest"]| == 1
  {
  }

  function RunFrom(sha: Digester, parse: Parser, sys: System, actions: seq<Action>): System {
    if actions == [] then sys
    else Step(sha, parse, RunFrom(sha, parse, sys, actions[..|actions| - 1]), actions[|actions| - 1])
  }

  lemma RunFromSnoc(sha: Digester, parse: Parser, sys: System, actions: seq<Action>, last: Action)
    ensures RunFrom(sha, parse, sys, actions + [last]) == Step(sha, parse, RunFrom(sha, parse, sys, actions), last)
    ensures RunFrom(sha, parse, sys, []) == sys
  {
    hide Step;
    assert (actions + [last])[..|actions|] == actions;
  }

  /** A client that starts a session and sends these bodies. */
  function SendingActions(id: string, state: string, bodies: seq<Content>): seq<Action> {
    if bodies == [] then [Start(id, state)]
    else
      SendingActions(id, state, bodies[..|bodies| - 1])
        + [Upload(id, Patch, map["_state" := [state]], bodies[|bodies| - 1])]
  }

  /** The same client finishing with one more body and the digest of them all. */
  function UploadActions(sha: Digester, id: string, state: string, bodies: seq<Content>, last: Content): seq<Action> {
    SendingActions(id, state, bodies)
      + [Upload(id, Put, map["_state" := [state], "digest" := [sha(Concat(bodies) + last)]], last)]
  }

  lemma PatchParams(store: Store, id: string, state: string)
    requires id in store.uploads && id in store.uploadStates && store.uploadStates[id] == state
    ensures InSession(store, id, map["_state" := [state]]) && ForPatch(map["_state" := [state]])
  {
    var params: Params := map["_state" := [state]];
    assert params.Keys == {"_state"};
  }

  lemma PutParams(store: Store, id: string, state: string, digest: string)
    requires id in store.uploads && id in store.uploadStates && store.uploadStates[id] == state
    ensures var params: Params := map["_state" := [state], "digest" := [digest]];
      InSession(store, id, params) && ForPut(params) && params["digest"][0] == digest
  {
    var params: Params := map["_state" := [state], "digest" := [digest]];
    assert params.Keys == {"_state", "digest"};
  }

  lemma ConcatGrows(bodies: seq<Content>, k: nat)
    requires k <= |bodies|
    ensures |Concat(bodies[..k])| <= |Concat(bodies)|
    decreases |bodies| - k
  {
    if k == |bodies| {
      assert bodies[..k] == bodies;
    } else {
      assert bodies[..k + 1][..k] == bodies[..k];
      ConcatGrows(bodies, k + 1);
    }
  }

  lemma {:induction false} BodiesSent(
    sha: Digester, parse: Parser, sys: System, id: string, state: string, bodies: seq<Content>)
    requires |Concat(bodies)| <= 67_108_864
    ensures RunFrom(sha, parse, sys, SendingActions(id, state, bodies)).store ==
      sys.store.(
        uploads := sys.store.uploads[id := Concat(bodies)], uploadStates := sys.store.uploadStates[id := state])
  {
    hide RunFrom, Step, Uploaded;
    if bodies == [] {
      SessionStarts(sha, parse, sys, id, state);
    } else {
      var n := |bodies| - 1;
      ConcatGrows(bodies, n);
      BodiesSent(sha, parse, sys, id, state, bodies[..n]);
      var before := RunFrom(sha, parse, sys, SendingActions(id, state, bodies[..n]));
      RunFromSnoc(sha, parse, sys, SendingActions(id, state, bodies[..n]),
        Upload(id, Patch, map["_state" := [state]], bodies[n]));
      UploadStep(sha, parse, before, id, Patch, map["_state" := [state]], bodies[n]);
      PatchParams(before.store, id, state);
      PatchEffect(sha, before.store, id, map["_state" := [state]], bodies[n]);
    }
  }

  lemma SessionStarts(sha: Digester, parse: Parser, sys: System, id: string, state: string)
    ensures RunFrom(sha, parse, sys, SendingActions(id, state, [])).store ==
      sys.store.(uploads := sys.store.uploads[id := Concat([])], uploadStates := sys.store.uploadStates[id := state])
  {
    assert [Start(id, state)][..0] == [];
  }

  lemma UploadStep(
    sha: Digester, parse: Parser, sys: System, id: string, command: Command, params: Params, body: Content)
    ensures Step(sha, parse, sys, Upload(id, command, params, body)).store ==
      Uploaded(sha, sys.store, id, command, params, body)
  {
    hide Uploaded, Recorded;
  }

  /** From any state of the registry a client that sends a blob in any pieces, within 64 MiB, has
      exactly that blob stored, and its session closed; everything else is as before. */
  lemma UploadCourse(
    sha: Digester, parse: Parser, sys: System, id: string, state: string, bodies: seq<Content>, last: Content)
    requires |Concat(bodies) + last| <= 67_108_864
    ensures var content := Concat(bodies) + last;
      RunFrom(sha, parse, sys, UploadActions(sha, id, state, bodies, last)).store ==
        Store(
          sys.store.blobs[sha(content) := Blob(content, "application/octet-stream")], sys.store.manifests,
          sys.store.uploads - {id}, sys.store.uploadStates - {id})
  {
    hide RunFrom, Step, Concat, SendingActions;
    var content := Concat(bodies) + last;
    var params: Params := map["_state" := [state], "digest" := [sha(content)]];
    BodiesSent(sha, parse, sys, id, state, bodies);
    var before := RunFrom(sha, parse, sys, SendingActions(id, state, bodies));
    RunFromSnoc(sha, parse, sys, SendingActions(id, state, bodies), Upload(id, Put, params, last));
    SessionFinishes(sha, parse, before, id, state, last);
    SetAndDropped(sys.store.uploads, id, Concat(bodies));
    SetAndDropped(sys.store.uploadStates, id, state);
  }

  lemma SetAndDropped<V>(m: map<string, V>, id: string, v: V)
    ensures m[id := v] - {id} == m - {id}
  {
  }

  lemma SessionFinishes(sha: Digester, parse: Parser, before: System, id: string, state: string, last: Content)
    requires id in before.store.uploads && id in before.store.uploadStates && before.store.uploadStates[id] == state
    requires |before.store.uploads[id] + last| <= 67_108_864
    ensures var content := before.store.uploads[id] + last;
      var params: Params := map["_state" := [state], "digest" := [sha(content)]];
      Step(sha, parse, before, Upload(id, Put, params, last)).store ==
        Store(
          before.store.blobs[sha(content) := Blob(content, "application/octet-stream")], before.store.manifests,
          before.store.uploads - {id}, before.store.uploadStates - {id})
  {
    hide Step, Uploaded, InSession, ForPut;
    var content := before.store.uploads[id] + last;
    var params: Params := map["_state" := [state], "digest" := [sha(content)]];
    UploadStep(sha, parse, before, id, Put, params, last);
    PutParams(before.store, id, state, sha(content));
    PutEffect(sha, before.store, id, params, last);
  }

  // ---- Manifests ----

  /** A descriptor that can be committed: well-formed and stored with its own size and digest. */
  predicate Stored(sha: Digester, blobs: map<string, Blob>, entry: Entry) {
    && entry.Entry? && entry.mediaType.Some? && entry.digest in blobs
    && |blobs[entry.digest].content| == entry.size && sha(blobs[entry.digest].content) == entry.digest
  }

  function Checks(task: nat, n: nat): seq<Action> {
    seq(n, _ => CheckNext(task))
  }

  /** A manifest PUT that nothing interrupts, with as many checks as it has descriptors. */
  function PutActions(parse: Parser, task: nat, reference: string, body: Content): seq<Action> {
    [BeginPut(task, reference, body)]
      + Checks(task, if parse(body).Some? then |parse(body).value| else 0)
      + [Commit(task)]
  }

  lemma CheckTells(sha: Digester, blobs: map<string, Blob>, entry: Entry)
    ensures Check(sha, blobs, entry).Some? <==> Stored(sha, blobs, entry)
    ensures Check(sha, blobs, entry).Some? ==>
      Check(sha, blobs, entry).value == Verified(entry.digest, blobs[entry.digest].content, entry.mediaType.value)
  {
  }

  /** After `k` checks the task holds what the first `k` descriptors name, or one of them was not
      stored and it is gone. */
  ghost predicate CheckedSoFar(sha: Digester, begun: System, task: nat, put: PutTask, after: System, k: nat) {
    && k <= |put.entries| && after.store == begun.store
    && if forall i | 0 <= i < k :: Stored(sha, begun.store.blobs, put.entries[i]) then
        && task in after.puts && |after.puts[task].verified| == k
        && after.puts[task].(verified := []) == put
        && (forall i | 0 <= i < k ::
          Check(sha, begun.store.blobs, put.entries[i]) == Some(after.puts[task].verified[i]))
      else task !in after.puts
  }

  lemma NextCheck(sha: Digester, parse: Parser, begun: System, task: nat, put: PutTask, before: System, k: nat)
    requires CheckedSoFar(sha, begun, task, put, before, k) && k < |put.entries|
    ensures CheckedSoFar(sha, begun, task, put, Step(sha, parse, before, CheckNext(task)), k + 1)
  {
    hide Check, Stored;
    CheckTells(sha, begun.store.blobs, put.entries[k]);
  }

  lemma {:induction false} ChecksDone(sha: Digester, parse: Parser, begun: System, task: nat, put: PutTask, k: nat)
    requires task in begun.puts && begun.puts[task] == put && put.verified == [] && k <= |put.entries|
    ensures CheckedSoFar(sha, begun, task, put, RunFrom(sha, parse, begun, Checks(task, k)), k)
  {
    hide Step, CheckedSoFar, RunFrom;
    if k == 0 {
      NothingChecked(sha, parse, begun, task, put);
    } else {
      ChecksDone(sha, parse, begun, task, put, k - 1);
      assert Checks(task, k) == Checks(task, k - 1) + [CheckNext(task)];
      RunFromSnoc(sha, parse, begun, Checks(task, k - 1), CheckNext(task));
      NextCheck(sha, parse, begun, task, put, RunFrom(sha, parse, begun, Checks(task, k - 1)), k - 1);
    }
  }

  lemma NothingChecked(sha: Digester, parse: Parser, begun: System, task: nat, put: PutTask)
    requires task in begun.puts && begun.puts[task] == put && put.verified == []
    ensures CheckedSoFar(sha, begun, task, put, RunFrom(sha, parse, begun, Checks(task, 0)), 0)
  {
    hide Step;
    assert Checks(task, 0) == [];
  }

  lemma {:induction false} RunFromConcat(sha: Digester, parse: Parser, sys: System, a: seq<Action>, b: seq<Action>)
    ensures RunFrom(sha, parse, sys, a + b) == RunFrom(sha, parse, RunFrom(sha, parse, sys, a), b)
    decreases |b|
  {
    hide Step, RunFrom;
    if b == [] {
      assert a + b == a;
      NoActions(sha, parse, RunFrom(sha, parse, sys, a));
    } else {
      var init, last := b[..|b| - 1], b[|b| - 1];
      assert a + b == (a + init) + [last] && b == init + [last];
      RunFromConcat(sha, parse, sys, a, init);
      RunFromSnoc(sha, parse, sys, a + init, last);
      RunFromSnoc(sha, parse, RunFrom(sha, parse, sys, a), init, last);
    }
  }

  lemma NoActions(sha: Digester, parse: Parser, sys: System)
    ensures RunFrom(sha, parse, sys, []) == sys
  {
  }

  lemma {:induction false} ChecksIdle(sha: Digester, parse: Parser, sys: System, task: nat, k: nat)
    requires task !in sys.puts
    ensures RunFrom(sha, parse, sys, Checks(task, k)) == sys
  {
    hide RunFrom;
    if k == 0 {
      assert Checks(task, 0) == [];
      NoActions(sha, parse, sys);
    } else {
      ChecksIdle(sha, parse, sys, task, k - 1);
      assert Checks(task, k) == Checks(task, k - 1) + [CheckNext(task)];
      RunFromSnoc(sha, parse, sys, Checks(task, k - 1), CheckNext(task));
    }
  }

  /** The last of the checked descriptors with this digest. */
  function LastFor(verified: seq<Verified>, digest: string): (r: Option<Verified>)
    ensures r.Some? ==> r.value in verified && r.value.digest == digest
    ensures r.None? ==> forall v | v in verified :: v.digest != digest
  {
    if verified == [] then None
    else if verified[|verified| - 1].digest == digest then Some(verified[|verified| - 1])
    else
      var init := verified[..|verified| - 1];
      assert forall v | v in verified :: v in init || v == verified[|verified| - 1];
      LastFor(init, digest)
  }

  lemma {:induction false} CommittedBlob(blobs: map<string, Blob>, verified: seq<Verified>, digest: string)
    ensures var committed := WithBlobs(blobs, verified);
      match LastFor(verified, digest)
      case None =>
        (digest in committed <==> digest in blobs) && (digest in blobs ==> committed[digest] == blobs[digest])
      case Some(v) => digest in committed && committed[digest] == Blob(v.content, v.mediaType)
  {
    if verified != [] {
      CommittedBlob(blobs, verified[..|verified| - 1], digest);
    }
  }

  /** Committing what is stored as it is changes no blob's bytes, and types it as the last descriptor. */
  lemma StoredAgain(blobs: map<string, Blob>, verified: seq<Verified>)
    requires forall v | v in verified :: v.digest in blobs && blobs[v.digest].content == v.content
    ensures WithBlobs(blobs, verified).Keys == blobs.Keys
    ensures forall d | d in blobs :: WithBlobs(blobs, verified)[d].content == blobs[d].content
    ensures forall d | d in blobs :: match LastFor(verified, d)
      case None => WithBlobs(blobs, verified)[d] == blobs[d]
      case Some(v) => v.mediaType == WithBlobs(blobs, verified)[d].mediaType
  {
    hide WithBlobs, LastFor;
    forall d ensures d in WithBlobs(blobs, verified) <==> d in blobs {
      CommittedBlob(blobs, verified, d);
    }
    forall d | d in blobs ensures WithBlobs(blobs, verified)[d].content == blobs[d].content
      && match LastFor(verified, d)
        case None => WithBlobs(blobs, verified)[d] == blobs[d]
        case Some(v) => v.mediaType == WithBlobs(blobs, verified)[d].mediaType
    {
      CommittedBlob(blobs, verified, d);
    }
  }

  /** Before and after hold the same blobs, by their bytes. */
  ghost predicate SameContents(before: map<string, Blob>, after: map<string, Blob>) {
    after.Keys == before.Keys && forall d | d in before :: after[d].content == before[d].content
  }

  /** A blob that a descriptor names is served with the media type of such a descriptor, and any other
      with its old one. */
  ghost predicate Retyped(before: map<string, Blob>, after: map<string, Blob>, entries: seq<Entry>) {
    forall d | d in before && d in after ::
      if exists entry :: entry in entries && entry.Entry? && entry.digest == d then
        exists entry :: entry in entries && entry == Entry(d, Some(after[d].mediaType), |after[d].content|)
      else after[d] == before[d]
  }

  lemma CommitEnds(sha: Digester, parse: Parser, begun: System, task: nat, put: PutTask, checked: System)
    requires CheckedSoFar(sha, begun, task, put, checked, |put.entries|)
    ensures var after := Step(sha, parse, checked, Commit(task)).store;
      if exists entry :: entry in put.entries && !Stored(sha, begun.store.blobs, entry) then after == begun.store
      else
        && after.manifests == begun.store.manifests[put.reference := put.body][sha(put.body) := put.body]
        && SameContents(begun.store.blobs, after.blobs) && Retyped(begun.store.blobs, after.blobs, put.entries)
        && after.uploads == begun.store.uploads && after.uploadStates == begun.store.uploadStates
  {
    hide Check, Stored, WithBlobs, Retyped;
    if forall i | 0 <= i < |put.entries| :: Stored(sha, begun.store.blobs, put.entries[i]) {
      var verified := checked.puts[task].verified;
      forall v | v in verified
        ensures v.digest in begun.store.blobs && begun.store.blobs[v.digest].content == v.content
      {
        var i :| 0 <= i < |verified| && verified[i] == v;
        CheckTells(sha, begun.store.blobs, put.entries[i]);
        StoredEntry(sha, begun.store.blobs, put.entries[i]);
      }
      StoredAgain(begun.store.blobs, verified);
      TypesCommitted(sha, begun.store.blobs, put.entries, verified);
    } else {
      var i :| 0 <= i < |put.entries| && !Stored(sha, begun.store.blobs, put.entries[i]);
      assert put.entries[i] in put.entries;
    }
  }

  lemma TypesCommitted(sha: Digester, blobs: map<string, Blob>, entries: seq<Entry>, verified: seq<Verified>)
    requires |verified| == |entries|
    requires forall i | 0 <= i < |entries| :: Check(sha, blobs, entries[i]) == Some(verified[i])
    ensures Retyped(blobs, WithBlobs(blobs, verified), entries)
  {
    hide Check, WithBlobs;
    var after := WithBlobs(blobs, verified);
    forall v | v in verified
      ensures v.digest in blobs && blobs[v.digest].content == v.content
      ensures Entry(v.digest, Some(v.mediaType), |v.content|) in entries
    {
      var i :| 0 <= i < |verified| && verified[i] == v;
      CheckedEntry(sha, blobs, entries[i], v);
    }
    forall entry | entry in entries ensures entry.Entry? ==> exists v :: v in verified && v.digest == entry.digest {
      var i :| 0 <= i < |entries| && entries[i] == entry;
      CheckedEntry(sha, blobs, entry, verified[i]);
    }
    StoredAgain(blobs, verified);
  }

  lemma CheckedEntry(sha: Digester, blobs: map<string, Blob>, entry: Entry, v: Verified)
    requires Check(sha, blobs, entry) == Some(v)
    ensures entry == Entry(v.digest, Some(v.mediaType), |v.content|)
    ensures v.digest in blobs && blobs[v.digest].content == v.content
  {
  }

  lemma StoredEntry(sha: Digester, blobs: map<string, Blob>, entry: Entry)
    requires Stored(sha, blobs, entry)
    ensures entry.Entry? && entry.digest in blobs
  {
  }

  /** A manifest that nothing interrupts is committed under its reference and under its digest exactly
      when the reference is a plain name and every descriptor is stored as it says; otherwise nothing
      changes. No blob's bytes change either way. */
  lemma PutCourse(sha: Digester, parse: Parser, sys: System, task: nat, reference: string, body: Content)
    requires task !in sys.puts
    ensures var before, after := sys.store, RunFrom(sha, parse, sys, PutActions(parse, task, reference, body)).store;
      if reference == "" || '/' in reference || parse(body).None?
        || exists entry :: entry in parse(body).value && !Stored(sha, before.blobs, entry) then after == before
      else
        && after.manifests == before.manifests[reference := body][sha(body) := body]
        && SameContents(before.blobs, after.blobs) && Retyped(before.blobs, after.blobs, parse(body).value)
        && after.uploads == before.uploads && after.uploadStates == before.uploadStates
  {
    hide RunFrom, Step, CheckedSoFar, SameContents, Retyped, Stored, Checks;
    var begin := BeginPut(task, reference, body);
    var begun := Step(sha, parse, sys, begin);
    var n := if parse(body).Some? then |parse(body).value| else 0;
    RunFromConcat(sha, parse, sys, [begin] + Checks(task, n), [Commit(task)]);
    RunFromConcat(sha, parse, sys, [begin], Checks(task, n));
    OneAction(sha, parse, sys, begin);
    OneAction(sha, parse, RunFrom(sha, parse, begun, Checks(task, n)), Commit(task));
    PutBegins(sha, parse, sys, task, reference, body);
    if reference == "" || '/' in reference || parse(body).None? {
      ChecksIdle(sha, parse, sys, task, n);
      NothingToCommit(sha, parse, sys, task);
    } else {
      var put := PutTask(reference, body, parse(body).value, []);
      ChecksDone(sha, parse, begun, task, put, n);
      CommitEnds(sha, parse, begun, task, put, RunFrom(sha, parse, begun, Checks(task, n)));
    }
  }

  lemma OneAction(sha: Digester, parse: Parser, sys: System, action: Action)
    ensures RunFrom(sha, parse, sys, [action]) == Step(sha, parse, sys, action)
  {
    hide Step;
    assert [action][..0] == [];
  }

  lemma PutBegins(sha: Digester, parse: Parser, sys: System, task: nat, reference: string, body: Content)
    requires task !in sys.puts
    ensures var begun := Step(sha, parse, sys, BeginPut(task, reference, body));
      if reference == "" || '/' in reference || parse(body).None? then begun == sys
      else
        && begun.store == sys.store && task in begun.puts
        && begun.puts[task] == PutTask(reference, body, parse(body).value, [])
  {
  }

  lemma NothingToCommit(sha: Digester, parse: Parser, sys: System, task: nat)
    requires task !in sys.puts
    ensures Step(sha, parse, sys, Commit(task)) == sys
  {
  }
}
