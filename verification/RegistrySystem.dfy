/** The registry's handler threads as interleaved steps: each locked section and each unlocked read
    is one step, so blobs may be deleted or uploaded between the check and the commit of a manifest. */
module RegistrySystem {
  import opened Wrappers
  import opened Digests
  import opened Registries

  /** A manifest PUT between its steps: the first `|verified|` descriptors have been checked. */
  datatype PutTask = PutTask(reference: string, body: Content, entries: seq<Entry>, verified: seq<Verified>)

  /** A finished upload with the bodies its session appended. */
  datatype Finished = Finished(id: string, bodies: seq<Content>, digest: string)

  datatype System = System(
    store: Store,
    puts: map<nat, PutTask>,
    deletes: map<nat, Content>,
    appended: map<string, seq<Content>>,
    finished: seq<Finished>)

  const INITIAL := System(EMPTY, map[], map[], map[], [])

  datatype Action =
    | Start(id: string, state: string)
    | Upload(id: string, command: Command, params: Params, body: Content)
    | DeleteBlob(digest: string)
    | BeginPut(task: nat, reference: string, body: Content)
    | CheckNext(task: nat)
    | Commit(task: nat)
    | BeginDelete(task: nat, reference: string)
    | FinishDelete(task: nat)

  predicate GoodReference(reference: string) {
    reference != "" && '/' !in reference
  }

  function Concat(bodies: seq<Content>): Content {
    if bodies == [] then [] else Concat(bodies[..|bodies| - 1]) + bodies[|bodies| - 1]
  }

  lemma ConcatSnoc(bodies: seq<Content>, body: Content)
    ensures Concat(bodies + [body]) == Concat(bodies) + body
  {
    assert (bodies + [body])[..|bodies|] == bodies;
  }

  /** What a session has appended, and which uploads have finished, after an upload request. */
  function Recorded(sha: Digester, sys: System, id: string, command: Command, params: Params, body: Content)
    : (map<string, seq<Content>>, seq<Finished>)
  {
    var status := UploadStatus(sha, sys.store, id, command, params, body);
    var bodies := if id in sys.appended then sys.appended[id] else [];
    if status == 204 then (sys.appended - {id}, sys.finished)
    else if status == 201 then
      (sys.appended - {id}, sys.finished + [Finished(id, bodies + [body], sha(Concat(bodies + [body])))])
    else if Appends(sys.store, id, command, params, body) then (sys.appended[id := bodies + [body]], sys.finished)
    else (sys.appended, sys.finished)
  }

  function Step(sha: Digester, parse: Parser, sys: System, action: Action): System {
    match action
    case Start(id, state) =>
      sys.(store := Started(sys.store, id, state), appended := sys.appended[id := []])
    case Upload(id, command, params, body) =>
      var (appended, finished) := Recorded(sha, sys, id, command, params, body);
      sys.(store := Uploaded(sha, sys.store, id, command, params, body), appended := appended, finished := finished)
    case DeleteBlob(digest) =>
      sys.(store := sys.store.(blobs := sys.store.blobs - {digest}))
    case BeginPut(task, reference, body) =>
      if task in sys.puts || !GoodReference(reference) || parse(body).None? then sys
      else sys.(puts := sys.puts[task := PutTask(reference, body, parse(body).value, [])])
    case CheckNext(task) =>
      if task !in sys.puts || |sys.puts[task].verified| >= |sys.puts[task].entries| then sys
      else
        var put := sys.puts[task];
        (match Check(sha, sys.store.blobs, put.entries[|put.verified|])
         case None => sys.(puts := sys.puts - {task})
         case Some(v) => sys.(puts := sys.puts[task := put.(verified := put.verified + [v])]))
    case Commit(task) =>
      if task !in sys.puts || |sys.puts[task].verified| < |sys.puts[task].entries| then sys
      else
        var put := sys.puts[task];
        sys.(store := Committed(sha, sys.store, put.reference, put.body, put.verified), puts := sys.puts - {task})
    case BeginDelete(task, reference) =>
      if task in sys.deletes || reference !in sys.store.manifests then sys
      else sys.(deletes := sys.deletes[task := sys.store.manifests[reference]])
    case FinishDelete(task) =>
      if task !in sys.deletes then sys
      else sys.(store := sys.store.(manifests := WithoutContent(sys.store.manifests, sys.deletes[task])),
                deletes := sys.deletes - {task})
  }

  function Run(sha: Digester, parse: Parser, actions: seq<Action>): System {
    if actions == [] then INITIAL
    else Step(sha, parse, Run(sha, parse, actions[..|actions| - 1]), actions[|actions| - 1])
  }

  // ---- Blobs and upload sessions ----

  ghost predicate FromUpload(finished: seq<Finished>, content: Content) {
    exists k :: 0 <= k < |finished| && Concat(finished[k].bodies) == content
  }

  ghost predicate HonestBlobs(sha: Digester, blobs: map<string, Blob>, finished: seq<Finished>) {
    forall d | d in blobs :: HonestContent(sha, finished, d, blobs[d].content)
  }

  /** The content has this digest and is what some finished upload appended. */
  ghost predicate HonestContent(sha: Digester, finished: seq<Finished>, digest: string, content: Content) {
    sha(content) == digest && FromUpload(finished, content)
  }

  predicate Matches(sha: Digester, entry: Entry, v: Verified) {
    entry.Entry? && entry.digest == v.digest && entry.size == |v.content| && sha(v.content) == v.digest
  }

  ghost predicate TaskChecked(sha: Digester, put: PutTask, finished: seq<Finished>) {
    && |put.verified| <= |put.entries|
    && (forall i | 0 <= i < |put.verified| :: Matches(sha, put.entries[i], put.verified[i]))
    && (forall i | 0 <= i < |put.verified| :: FromUpload(finished, put.verified[i].content))
  }

  ghost predicate SessionsKept(sys: System) {
    && sys.store.uploads.Keys == sys.store.uploadStates.Keys == sys.appended.Keys
    && forall id | id in sys.appended ::
        sys.store.uploads[id] == Concat(sys.appended[id]) && |sys.store.uploads[id]| <= MAX_BODY_BYTES
  }

  ghost predicate FinishedBounded(sha: Digester, finished: seq<Finished>) {
    forall k | 0 <= k < |finished| ::
      |Concat(finished[k].bodies)| <= MAX_BODY_BYTES && sha(Concat(finished[k].bodies)) == finished[k].digest
  }

  ghost predicate Invariant(sha: Digester, sys: System) {
    && HonestBlobs(sha, sys.store.blobs, sys.finished)
    && (forall t | t in sys.puts :: TaskChecked(sha, sys.puts[t], sys.finished))
    && SessionsKept(sys)
    && FinishedBounded(sha, sys.finished)
  }

  lemma FromUploadGrows(finished: seq<Finished>, more: seq<Finished>, content: Content)
    requires FromUpload(finished, content)
    ensures FromUpload(finished + more, content)
  {
    var k :| 0 <= k < |finished| && Concat(finished[k].bodies) == content;
    assert (finished + more)[k] == finished[k];
  }

  lemma AppendsMeans(store: Store, id: string, command: Command, params: Params, body: Content)
    requires Appends(store, id, command, params, body)
    ensures id in store.uploads && |store.uploads[id]| + |body| <= MAX_BODY_BYTES
  {
  }

  lemma SessionsStep(sha: Digester, sys: System, id: string, command: Command, params: Params, body: Content)
    requires SessionsKept(sys)
    ensures SessionsKept(System(Uploaded(sha, sys.store, id, command, params, body), sys.puts, sys.deletes,
      Recorded(sha, sys, id, command, params, body).0, Recorded(sha, sys, id, command, params, body).1))
  {
    hide UploadStatus, Appends, Concat, SessionsKept;
    var status := UploadStatus(sha, sys.store, id, command, params, body);
    if status == 204 || status == 201 {
      var blobs := Uploaded(sha, sys.store, id, command, params, body).blobs;
      SessionClosed(sys, id, blobs, Recorded(sha, sys, id, command, params, body).1);
    } else if Appends(sys.store, id, command, params, body) {
      AppendsMeans(sys.store, id, command, params, body);
      SessionExtended(sys, id, body);
    }
  }

  lemma SessionClosed(sys: System, id: string, blobs: map<string, Blob>, finished: seq<Finished>)
    requires SessionsKept(sys)
    ensures SessionsKept(System(
      Store(blobs, sys.store.manifests, sys.store.uploads - {id}, sys.store.uploadStates - {id}),
      sys.puts, sys.deletes, sys.appended - {id}, finished))
  {
    hide Concat;
  }

  lemma SessionStarted(sys: System, id: string, state: string)
    requires SessionsKept(sys)
    ensures SessionsKept(sys.(store := Started(sys.store, id, state), appended := sys.appended[id := []]))
  {
    assert Concat([]) == [];
    hide Concat;
  }

  lemma SessionExtended(sys: System, id: string, body: Content)
    requires SessionsKept(sys) && id in sys.store.uploads && |sys.store.uploads[id]| + |body| <= MAX_BODY_BYTES
    ensures id in sys.appended
    ensures SessionsKept(sys.(store := sys.store.(uploads := sys.store.uploads[id := sys.store.uploads[id] + body]),
      appended := sys.appended[id := sys.appended[id] + [body]]))
  {
    hide Concat;
    ConcatSnoc(sys.appended[id], body);
  }

  /** A finished upload stores exactly what its session appended, including what a refused finishing
      request brought, under its own digest. */
  lemma FinishStoresSession(sha: Digester, sys: System, id: string, params: Params, body: Content)
    requires SessionsKept(sys) && UploadStatus(sha, sys.store, id, Put, params, body) == 201
    ensures id in sys.appended
    ensures var content := Concat(sys.appended[id] + [body]);
      && |content| <= MAX_BODY_BYTES
      && Uploaded(sha, sys.store, id, Put, params, body).blobs ==
        sys.store.blobs[sha(content) := Blob(content, "application/octet-stream")]
      && Recorded(sha, sys, id, Put, params, body).1 ==
        sys.finished + [Finished(id, sys.appended[id] + [body], sha(content))]
  {
    hide InSession, ForPut, Concat;
    ConcatSnoc(sys.appended[id], body);
  }

  lemma UploadKept(sha: Digester, sys: System, id: string, command: Command, params: Params, body: Content)
    requires Invariant(sha, sys)
    ensures var (appended, finished) := Recorded(sha, sys, id, command, params, body);
      Invariant(sha,
        System(Uploaded(sha, sys.store, id, command, params, body), sys.puts, sys.deletes, appended, finished))
  {
    hide InSession, ForPatch, ForPut, Concat, FromUpload, SessionsKept, Appends, Matches, Uploaded, Recorded,
      UploadStatus;
    SessionsStep(sha, sys, id, command, params, body);
    if UploadStatus(sha, sys.store, id, command, params, body) == 201 {
      OnlyPutFinishes(sha, sys.store, id, command, params, body);
      FinishStoresSession(sha, sys, id, params, body);
      var next := Finished(id, sys.appended[id] + [body], sha(Concat(sys.appended[id] + [body])));
      LastFinished(sys.finished, next);
      forall content | FromUpload(sys.finished, content) ensures FromUpload(sys.finished + [next], content) {
        FromUploadGrows(sys.finished, [next], content);
      }
    } else {
      NothingFinished(sha, sys, id, command, params, body);
    }
  }

  lemma OnlyPutFinishes(sha: Digester, store: Store, id: string, command: Command, params: Params, body: Content)
    requires UploadStatus(sha, store, id, command, params, body) == 201
    ensures command == Put
  {
  }

  lemma LastFinished(finished: seq<Finished>, next: Finished)
    ensures FromUpload(finished + [next], Concat(next.bodies))
  {
    assert (finished + [next])[|finished|] == next;
  }

  lemma NothingFinished(sha: Digester, sys: System, id: string, command: Command, params: Params, body: Content)
    requires UploadStatus(sha, sys.store, id, command, params, body) != 201
    ensures Uploaded(sha, sys.store, id, command, params, body).blobs == sys.store.blobs
    ensures Recorded(sha, sys, id, command, params, body).1 == sys.finished
  {
  }

  // ---- The manifest commit ----

  lemma CheckMatches(sha: Digester, blobs: map<string, Blob>, finished: seq<Finished>, entry: Entry)
    requires HonestBlobs(sha, blobs, finished) && Check(sha, blobs, entry).Some?
    ensures var v := Check(sha, blobs, entry).value;
      Matches(sha, entry, v) && FromUpload(finished, v.content)
  {
    hide FromUpload;
  }

  lemma {:induction false} CommitHonest(
    sha: Digester, blobs: map<string, Blob>, verified: seq<Verified>, finished: seq<Finished>)
    requires HonestBlobs(sha, blobs, finished)
    requires forall v | v in verified :: HonestContent(sha, finished, v.digest, v.content)
    ensures HonestBlobs(sha, WithBlobs(blobs, verified), finished)
  {
    hide HonestContent;
    if verified != [] {
      assert verified[|verified| - 1] in verified && forall v | v in verified[..|verified| - 1] :: v in verified;
      CommitHonest(sha, blobs, verified[..|verified| - 1], finished);
    }
  }

  lemma TaskHonest(sha: Digester, put: PutTask, finished: seq<Finished>)
    requires TaskChecked(sha, put, finished)
    ensures forall v | v in put.verified :: HonestContent(sha, finished, v.digest, v.content)
  {
    hide FromUpload;
  }

  lemma TaskAdvances(sha: Digester, put: PutTask, finished: seq<Finished>, v: Verified)
    requires TaskChecked(sha, put, finished) && |put.verified| < |put.entries|
    requires Matches(sha, put.entries[|put.verified|], v) && FromUpload(finished, v.content)
    ensures TaskChecked(sha, put.(verified := put.verified + [v]), finished)
  {
    hide FromUpload, Matches;
  }

  lemma StepKeeps(sha: Digester, parse: Parser, sys: System, action: Action)
    requires Invariant(sha, sys)
    ensures Invariant(sha, Step(sha, parse, sys, action))
  {
    hide Invariant, Uploaded, Recorded, Started, Check, Committed, GoodReference;
    match action
    case Start(id, state) => StartKept(sha, sys, id, state);
    case Upload(id, command, params, body) => UploadKept(sha, sys, id, command, params, body);
    case DeleteBlob(digest) => DeleteBlobKept(sha, sys, digest);
    case BeginPut(task, reference, body) => BeginPutKept(sha, parse, sys, task, reference, body);
    case CheckNext(task) => CheckNextKept(sha, parse, sys, task);
    case Commit(task) => CommitKept(sha, parse, sys, task);
    case BeginDelete(task, reference) => DeleteKept(sha, parse, sys, action);
    case FinishDelete(task) => DeleteKept(sha, parse, sys, action);
  }

  lemma StartKept(sha: Digester, sys: System, id: string, state: string)
    requires Invariant(sha, sys)
    ensures Invariant(sha, sys.(store := Started(sys.store, id, state), appended := sys.appended[id := []]))
  {
    hide TaskChecked, HonestBlobs, SessionsKept, FinishedBounded;
    SessionStarted(sys, id, state);
  }

  lemma DeleteBlobKept(sha: Digester, sys: System, digest: string)
    requires Invariant(sha, sys)
    ensures Invariant(sha, sys.(store := sys.store.(blobs := sys.store.blobs - {digest})))
  {
    hide TaskChecked, HonestContent, FinishedBounded, Concat;
  }

  lemma BeginPutKept(sha: Digester, parse: Parser, sys: System, task: nat, reference: string, body: Content)
    requires Invariant(sha, sys)
    ensures Invariant(sha, Step(sha, parse, sys, BeginPut(task, reference, body)))
  {
    hide TaskChecked, HonestContent, FinishedBounded, Concat, GoodReference;
    if parse(body).Some? {
      FreshTask(sha, reference, body, parse(body).value, sys.finished);
    }
  }

  lemma CheckNextKept(sha: Digester, parse: Parser, sys: System, task: nat)
    requires Invariant(sha, sys)
    ensures Invariant(sha, Step(sha, parse, sys, CheckNext(task)))
  {
    hide TaskChecked, HonestBlobs, FinishedBounded, Concat, Check;
    if task in sys.puts && |sys.puts[task].verified| < |sys.puts[task].entries| {
      var put := sys.puts[task];
      var entry := put.entries[|put.verified|];
      if Check(sha, sys.store.blobs, entry).Some? {
        CheckMatches(sha, sys.store.blobs, sys.finished, entry);
        TaskAdvances(sha, put, sys.finished, Check(sha, sys.store.blobs, entry).value);
      }
    }
  }

  lemma CommitKept(sha: Digester, parse: Parser, sys: System, task: nat)
    requires Invariant(sha, sys)
    ensures Invariant(sha, Step(sha, parse, sys, Commit(task)))
  {
    hide TaskChecked, HonestBlobs, HonestContent, FinishedBounded, WithBlobs, Concat;
    if task in sys.puts {
      TaskHonest(sha, sys.puts[task], sys.finished);
      CommitHonest(sha, sys.store.blobs, sys.puts[task].verified, sys.finished);
    }
  }

  lemma DeleteKept(sha: Digester, parse: Parser, sys: System, action: Action)
    requires Invariant(sha, sys) && (action.BeginDelete? || action.FinishDelete?)
    ensures Invariant(sha, Step(sha, parse, sys, action))
  {
    hide TaskChecked, HonestBlobs, FinishedBounded, Concat;
  }

  lemma FreshTask(sha: Digester, reference: string, body: Content, entries: seq<Entry>, finished: seq<Finished>)
    ensures TaskChecked(sha, PutTask(reference, body, entries, []), finished)
  {
  }

  /** In every reachable state each blob key is the digest of its bytes, every blob is what some
      finished upload appended, and every session holds what it appended, within 64 MiB. */
  lemma {:induction false} Reachable(sha: Digester, parse: Parser, actions: seq<Action>)
    ensures Invariant(sha, Run(sha, parse, actions))
  {
    hide Invariant, Step;
    if actions == [] {
      Initially(sha);
    } else {
      Reachable(sha, parse, actions[..|actions| - 1]);
      StepKeeps(sha, parse, Run(sha, parse, actions[..|actions| - 1]), actions[|actions| - 1]);
    }
  }

  lemma Initially(sha: Digester)
    ensures Invariant(sha, INITIAL)
  {
  }

  /** No two finished uploads have different contents with the same digest. */
  ghost predicate NoCollisions(sha: Digester, finished: seq<Finished>) {
    forall i, j | 0 <= i < |finished| && 0 <= j < |finished| ::
      sha(Concat(finished[i].bodies)) == sha(Concat(finished[j].bodies)) ==>
        Concat(finished[i].bodies) == Concat(finished[j].bodies)
  }

  lemma SameContent(sha: Digester, finished: seq<Finished>, a: Content, b: Content)
    requires NoCollisions(sha, finished) && FromUpload(finished, a) && FromUpload(finished, b) && sha(a) == sha(b)
    ensures a == b
  {
    var i :| 0 <= i < |finished| && Concat(finished[i].bodies) == a;
    var j :| 0 <= j < |finished| && Concat(finished[j].bodies) == b;
  }

  lemma {:induction false} CommitHolds(blobs: map<string, Blob>, verified: seq<Verified>)
    ensures forall v | v in verified :: v.digest in WithBlobs(blobs, verified)
  {
    if verified != [] {
      var rest, last := verified[..|verified| - 1], verified[|verified| - 1];
      CommitHolds(blobs, rest);
      assert forall v | v in verified :: v in rest || v == last;
    }
  }

  /** The descriptor's blob is there, with its size and digest. */
  predicate Resolves(sha: Digester, blobs: map<string, Blob>, entry: Entry) {
    entry.Entry? && entry.digest in blobs
    && |blobs[entry.digest].content| == entry.size && sha(blobs[entry.digest].content) == entry.digest
  }

  /** Immediately after a manifest commits, under every interleaving of its checks with deletions and
      uploads, all its descriptors resolve with the declared size. */
  lemma CommitResolves(sha: Digester, parse: Parser, actions: seq<Action>, task: nat)
    requires var sys := Run(sha, parse, actions);
      && NoCollisions(sha, sys.finished)
      && task in sys.puts && |sys.puts[task].verified| == |sys.puts[task].entries|
    ensures var sys := Run(sha, parse, actions);
      var after := Step(sha, parse, sys, Commit(task));
      && (forall entry | entry in sys.puts[task].entries :: Resolves(sha, after.store.blobs, entry))
      && sys.puts[task].reference in after.store.manifests
      && sha(sys.puts[task].body) in after.store.manifests
      && after.store.manifests[sys.puts[task].reference] == sys.puts[task].body
  {
    hide Run, Recorded, Uploaded, Check, NoCollisions, FromUpload, WithBlobs;
    Reachable(sha, parse, actions);
    var sys := Run(sha, parse, actions);
    var put := sys.puts[task];
    StepKeeps(sha, parse, sys, Commit(task));
    var after := Step(sha, parse, sys, Commit(task));
    CommitHolds(sys.store.blobs, put.verified);
    forall i | 0 <= i < |put.entries| ensures Resolves(sha, after.store.blobs, put.entries[i]) {
      var v := put.verified[i];
      assert v in put.verified && Matches(sha, put.entries[i], v);
      assert HonestContent(sha, sys.finished, v.digest, after.store.blobs[v.digest].content);
      SameContent(sha, sys.finished, v.content, after.store.blobs[v.digest].content);
    }
  }

  // ---- Manifests by digest ----

  /** Every manifest can also be had under its digest, and a digest names only its own manifest. */
  ghost predicate HonestManifests(sha: Digester, manifests: map<string, Content>) {
    && (forall r | r in manifests :: sha(manifests[r]) in manifests && manifests[sha(manifests[r])] == manifests[r])
    && (forall r | r in manifests && ValidDigest(r) :: sha(manifests[r]) == r)
  }

  /** The reference is a tag, or the digest of the body put under it; the registry does not check. */
  predicate HonestReference(sha: Digester, reference: string, body: Content) {
    ValidDigest(reference) ==> reference == sha(body)
  }

  ghost predicate HonestPuts(sha: Digester, universe: set<Content>, actions: seq<Action>) {
    forall a | a in actions && a.BeginPut? :: HonestReference(sha, a.reference, a.body) && a.body in universe
  }

  ghost predicate ManifestsHonest(sha: Digester, universe: set<Content>, sys: System) {
    && HonestManifests(sha, sys.store.manifests)
    && (forall r | r in sys.store.manifests :: sys.store.manifests[r] in universe)
    && (forall t | t in sys.puts ::
      HonestReference(sha, sys.puts[t].reference, sys.puts[t].body) && sys.puts[t].body in universe)
  }

  lemma CommitKeepsHonest(
    sha: Digester, universe: set<Content>, manifests: map<string, Content>, reference: string, body: Content)
    requires CollisionFree(sha, universe) && HonestManifests(sha, manifests)
    requires (forall r | r in manifests :: manifests[r] in universe) && body in universe
    requires HonestReference(sha, reference, body)
    ensures HonestManifests(sha, manifests[reference := body][sha(body) := body])
  {
    hide ValidDigest;
  }

  lemma StepKeepsHonest(sha: Digester, parse: Parser, universe: set<Content>, sys: System, action: Action)
    requires CollisionFree(sha, universe) && ManifestsHonest(sha, universe, sys) && HonestPuts(sha, universe, [action])
    ensures ManifestsHonest(sha, universe, Step(sha, parse, sys, action))
  {
    hide Uploaded, Recorded, HonestReference, Check, WithBlobs, GoodReference, CollisionFree, HonestManifests;
    assert action in [action];
    match action {
      case Upload(id, command, params, body) => UploadSparesManifests(sha, sys.store, id, command, params, body);
      case Commit(task) => CommitStepHonest(sha, parse, universe, sys, task);
      case FinishDelete(task) =>
        if task in sys.deletes {
          DeleteKeepsHonest(sha, sys.store.manifests, sys.deletes[task]);
        }
      case BeginPut(task, reference, body) => BeginPutHonest(sha, parse, universe, sys, task, reference, body);
      case _ =>
    }
  }

  lemma BeginPutHonest(
    sha: Digester, parse: Parser, universe: set<Content>, sys: System, task: nat, reference: string, body: Content)
    requires ManifestsHonest(sha, universe, sys) && HonestReference(sha, reference, body) && body in universe
    ensures ManifestsHonest(sha, universe, Step(sha, parse, sys, BeginPut(task, reference, body)))
  {
    hide HonestReference, GoodReference, HonestManifests;
  }

  lemma CommitStepHonest(sha: Digester, parse: Parser, universe: set<Content>, sys: System, task: nat)
    requires CollisionFree(sha, universe) && ManifestsHonest(sha, universe, sys)
    ensures ManifestsHonest(sha, universe, Step(sha, parse, sys, Commit(task)))
  {
    hide HonestReference, WithBlobs, CollisionFree, HonestManifests;
    if task in sys.puts {
      CommitKeepsHonest(sha, universe, sys.store.manifests, sys.puts[task].reference, sys.puts[task].body);
    }
  }

  lemma DeleteKeepsHonest(sha: Digester, manifests: map<string, Content>, content: Content)
    requires HonestManifests(sha, manifests)
    ensures HonestManifests(sha, WithoutContent(manifests, content))
  {
    hide ValidDigest;
  }

  lemma UploadSparesManifests(sha: Digester, store: Store, id: string, command: Command, params: Params, body: Content)
    ensures Uploaded(sha, store, id, command, params, body).manifests == store.manifests
  {
    hide UploadStatus, Appends;
  }

  /** While no PUT names a digest other than its body's own, digests name exactly their manifests. */
  lemma {:induction false} DigestsNameTheirManifests(
    sha: Digester, parse: Parser, universe: set<Content>, actions: seq<Action>)
    requires CollisionFree(sha, universe) && HonestPuts(sha, universe, actions)
    ensures ManifestsHonest(sha, universe, Run(sha, parse, actions))
  {
    hide CollisionFree, Step, HonestReference;
    if actions != [] {
      var last := actions[|actions| - 1];
      assert last in actions && forall a | a in actions[..|actions| - 1] :: a in actions;
      DigestsNameTheirManifests(sha, parse, universe, actions[..|actions| - 1]);
      StepKeepsHonest(sha, parse, universe, Run(sha, parse, actions[..|actions| - 1]), last);
    }
  }

  /** Any other digest-shaped reference breaks it: the digest then names bytes it is not the digest of. */
  lemma DigestReferenceUnchecked(sha: Digester, parse: Parser, sys: System, task: nat)
    requires task in sys.puts && |sys.puts[task].verified| == |sys.puts[task].entries|
    requires !HonestReference(sha, sys.puts[task].reference, sys.puts[task].body)
    ensures !HonestManifests(sha, Step(sha, parse, sys, Commit(task)).store.manifests)
  {
    hide ValidDigest, WithBlobs;
    var after := Step(sha, parse, sys, Commit(task)).store.manifests;
    var reference := sys.puts[task].reference;
    assert reference in after && ValidDigest(reference) && after[reference] == sys.puts[task].body;
  }

  /** A client that uploads one blob and puts a manifest of it under a foreign digest. */
  function ForeignDigestActions(sha: Digester, body: Content, blob: Content, reference: string): seq<Action> {
    [
      Start("u", "s"),
      Upload("u", Put, map["_state" := ["s"], "digest" := [sha(blob)]], blob),
      BeginPut(0, reference, body),
      CheckNext(0),
      Commit(0)
    ]
  }

  lemma RunSnoc(sha: Digester, parse: Parser, actions: seq<Action>, last: Action)
    ensures Run(sha, parse, actions + [last]) == Step(sha, parse, Run(sha, parse, actions), last)
  {
    hide Step;
    assert (actions + [last])[..|actions|] == actions;
  }

  lemma BlobUploaded(sha: Digester, parse: Parser, blob: Content)
    requires |blob| <= MAX_BODY_BYTES
    ensures var params := map["_state" := ["s"], "digest" := [sha(blob)]];
      var sys := Step(sha, parse, Step(sha, parse, INITIAL, Start("u", "s")), Upload("u", Put, params, blob));
      sys.puts == map[] && sha(blob) in sys.store.blobs && sys.store.blobs[sha(blob)].content == blob
  {
    hide ForPut;
    var params := map["_state" := ["s"], "digest" := [sha(blob)]];
    UploadParams(sha, blob);
    var started := Started(EMPTY, "u", "s");
    PutEffect(sha, started, "u", params, blob);
    assert [] + blob == blob;
  }

  lemma UploadParams(sha: Digester, blob: Content)
    ensures ForPut(map["_state" := ["s"], "digest" := [sha(blob)]])
  {
    var params := map["_state" := ["s"], "digest" := [sha(blob)]];
    assert params.Keys == {"_state", "digest"};
  }

  lemma DigestIsReference(reference: string)
    requires ValidDigest(reference)
    ensures GoodReference(reference)
  {
    assert reference == DIGEST_PREFIX + reference[|DIGEST_PREFIX|..];
  }

  lemma ManifestPut(
    sha: Digester, parse: Parser, sys: System, body: Content, blob: Content, mediaType: string, reference: string)
    requires sys.puts == map[] && sha(blob) in sys.store.blobs && sys.store.blobs[sha(blob)].content == blob
    requires parse(body) == Some([Entry(sha(blob), Some(mediaType), |blob|)]) && GoodReference(reference)
    ensures var checked := Step(sha, parse, Step(sha, parse, sys, BeginPut(0, reference, body)), CheckNext(0));
      && 0 in checked.puts && checked.puts[0].reference == reference && checked.puts[0].body == body
      && |checked.puts[0].verified| == |checked.puts[0].entries|
  {
    hide GoodReference;
  }

  /** The breach is within reach: from the empty registry, three requests make any digest but the
      manifest's own name the manifest. */
  lemma ForeignDigestReached(
    sha: Digester, parse: Parser, body: Content, blob: Content, mediaType: string, reference: string)
    requires |blob| <= MAX_BODY_BYTES && parse(body) == Some([Entry(sha(blob), Some(mediaType), |blob|)])
    requires ValidDigest(reference) && reference != sha(body)
    ensures !HonestManifests(sha, Run(sha, parse, ForeignDigestActions(sha, body, blob, reference)).store.manifests)
  {
    hide ValidDigest, GoodReference, HonestManifests, Step, Run;
    var actions := ForeignDigestActions(sha, body, blob, reference);
    EmptyRun(sha, parse);
    RunSnoc(sha, parse, [], actions[0]);
    RunSnoc(sha, parse, actions[..1], actions[1]);
    RunSnoc(sha, parse, actions[..2], actions[2]);
    RunSnoc(sha, parse, actions[..3], actions[3]);
    RunSnoc(sha, parse, actions[..4], actions[4]);
    assert [] + [actions[0]] == actions[..1] && actions[..1] + [actions[1]] == actions[..2];
    assert actions[..2] + [actions[2]] == actions[..3] && actions[..3] + [actions[3]] == actions[..4];
    assert actions[..4] + [actions[4]] == actions;
    BlobUploaded(sha, parse, blob);
    DigestIsReference(reference);
    ManifestPut(sha, parse, Run(sha, parse, actions[..2]), body, blob, mediaType, reference);
    DigestReferenceUnchecked(sha, parse, Run(sha, parse, actions[..4]), 0);
  }

  lemma EmptyRun(sha: Digester, parse: Parser)
    ensures Run(sha, parse, []) == INITIAL
  {
  }
}
