/** What every interleaving of brokered requests keeps: tokens are earned, stay with their
    repository, and direct requests and the cache know nothing of each other. */
module BrokerSafety {
  import opened Wrappers
  import opened BearerDiscovery
  import opened TokenCaches
  import opened Brokers

  /** Some request had this token issued for this repository and then accepted with status 200. */
  ghost predicate Earned(log: seq<Event>, repository: string, token: string) {
    exists i, j :: 0 <= i < j < |log| && EarnedAt(log, repository, token, i, j)
  }

  ghost predicate EarnedAt(log: seq<Event>, repository: string, token: string, i: nat, j: nat)
    requires i < j < |log|
  {
    && IssuedAt(log, repository, token, i)
    && log[j].Sent? && log[j].id == log[i].id && log[j].repository == repository
    && log[j].authorization == Some(token) && Accepted(log[j].reply)
  }

  ghost predicate IssuedAt(log: seq<Event>, repository: string, token: string, i: nat)
    requires i < |log|
  {
    log[i].Exchanged? && log[i].repository == repository && log[i].granted == Some(token)
  }

  ghost predicate Issued(log: seq<Event>, repository: string, token: string) {
    exists i :: 0 <= i < |log| && IssuedAt(log, repository, token, i)
  }

  lemma EarnedGrows(log: seq<Event>, more: seq<Event>, repository: string, token: string)
    requires Earned(log, repository, token)
    ensures Earned(log + more, repository, token) && Issued(log, repository, token)
  {
    var i, j :| 0 <= i < j < |log| && EarnedAt(log, repository, token, i, j);
    assert EarnedAt(log + more, repository, token, i, j);
  }

  /** The `k`th thing seen of a request is in the log, after the things seen before it. */
  lemma {:induction false} Position(log: seq<Event>, id: nat, k: nat) returns (i: nat)
    requires k < |EventsOf(log, id)|
    ensures i < |log| && log[i] == EventsOf(log, id)[k] && EventsOf(log[..i], id) == EventsOf(log, id)[..k]
  {
    var n := |log| - 1;
    if log[n].id == id && k == |EventsOf(log, id)| - 1 {
      i := n;
    } else {
      i := Position(log[..n], id, k);
      assert log[..n][..i] == log[..i];
    }
  }

  /** What has been seen of a request about to store its token. */
  lemma StoringTrace(config: Config, b: Broker, id: nat)
    requires RequestsTraced(config, b) && id in b.requests && b.requests[id].phase.Storing?
    ensures var q := b.requests[id];
      var events := EventsOf(b.log, id);
      && |events| == 3
      && (exists challenge :: events[1] == Exchanged(id, q.repository, challenge, Some(q.phase.token)))
      && (exists reply :: events[2] == Sent(id, q.repository, Some(q.phase.token), reply) && Accepted(reply))
  {
    hide Trusted, EventsOf;
    var events := EventsOf(b.log, id);
    assert ValidTrace(config, b.requests[id], id, events) && InPhase(config, b.requests[id], events);
    assert events[1] in events && events[2] in events;
    assert events[1] == Exchanged(id, b.requests[id].repository, events[1].challenge, Some(b.requests[id].phase.token));
    assert events[2] == Sent(id, b.requests[id].repository, Some(b.requests[id].phase.token), events[2].reply);
  }

  lemma StoringEarned(config: Config, b: Broker, id: nat)
    requires RequestsTraced(config, b) && id in b.requests && b.requests[id].phase.Storing?
    ensures Earned(b.log, b.requests[id].repository, b.requests[id].phase.token)
  {
    hide RequestsTraced, EventsOf;
    var q := b.requests[id];
    var events := EventsOf(b.log, id);
    StoringTrace(config, b, id);
    var j := Position(b.log, id, 2);
    var i := Position(b.log[..j], id, 1);
    assert events[..2][1] == events[1] && b.log[..j][i] == b.log[i];
    assert EarnedAt(b.log, q.repository, q.phase.token, i, j);
  }

  lemma RetryingIssued(config: Config, b: Broker, id: nat)
    requires RequestsTraced(config, b) && id in b.requests && b.requests[id].phase.Retrying?
    ensures Issued(b.log, b.requests[id].repository, b.requests[id].phase.token)
  {
    hide Trusted;
    var q := b.requests[id];
    var events := EventsOf(b.log, id);
    assert ValidTrace(config, q, id, events) && InPhase(config, q, events);
    var i := Position(b.log, id, 1);
    assert events[1] in events;
    assert IssuedAt(b.log, q.repository, q.phase.token, i);
  }

  ghost predicate CacheEarned(b: Broker) {
    && (forall r | r in b.cache :: Earned(b.log, r, b.cache[r].authorization))
    && forall id | id in b.requests && b.requests[id].phase.Sending? && b.requests[id].phase.cached.Some? ::
        Earned(b.log, b.requests[id].repository, b.requests[id].phase.cached.value)
  }

  /** A token on the wire of a brokered request was issued, earlier, for that repository. */
  ghost predicate TokensStayHome(config: Config, b: Broker) {
    forall k | 0 <= k < |b.log| && BrokeredToken(config, b, b.log[k]) ::
      Issued(b.log[..k], b.log[k].repository, b.log[k].authorization.value)
  }

  ghost predicate BrokeredToken(config: Config, b: Broker, e: Event) {
    e.Sent? && e.authorization.Some? && e.id in b.requests && !IsDirect(config, b.requests[e.id].authorization)
  }

  ghost predicate Invariant(config: Config, b: Broker) {
    RequestsTraced(config, b) && CacheEarned(b) && TokensStayHome(config, b)
  }

  lemma EntriesAfter(cache: Entries, q: Request, env: Environment, r: string)
    requires r in CacheAfter(cache, q, env)
    ensures r !in cache || CacheAfter(cache, q, env)[r] != cache[r] ==>
      q.phase.Storing? && r == q.repository && CacheAfter(cache, q, env)[r].authorization == q.phase.token
  {
    hide Lifetime;
  }

  lemma CacheEarnedKept(config: Config, b: Broker, id: nat, env: Environment)
    requires RequestsTraced(config, b) && CacheEarned(b) && id in b.requests
    ensures CacheEarned(Step(config, b, Advance(id, env)))
  {
    hide RequestsTraced, Earned, CacheAfter, Choose, EventsOn;
    var q := b.requests[id];
    var next := Step(config, b, Advance(id, env));
    var added := EventsOn(id, q, env);
    forall r | r in next.cache ensures Earned(next.log, r, next.cache[r].authorization) {
      EntriesAfter(b.cache, q, env, r);
      if q.phase.Storing? {
        StoringEarned(config, b, id);
      }
      EarnedGrows(b.log, added, r, next.cache[r].authorization);
    }
    forall other | other in next.requests && next.requests[other].phase.Sending?
      && next.requests[other].phase.cached.Some?
      ensures Earned(next.log, next.requests[other].repository, next.requests[other].phase.cached.value)
    {
      EarnedGrows(b.log, added, next.requests[other].repository, next.requests[other].phase.cached.value);
    }
  }

  lemma TokensStayHomeKept(config: Config, b: Broker, id: nat, env: Environment)
    requires Invariant(config, b) && id in b.requests
    ensures TokensStayHome(config, Step(config, b, Advance(id, env)))
  {
    hide RequestsTraced, Earned, CacheAfter, PhaseAfter, Issued;
    var q := b.requests[id];
    var next := Step(config, b, Advance(id, env));
    DirectPhase(config, b, id);
    if q.phase.Retrying? {
      RetryingIssued(config, b, id);
    }
    if q.phase.Sending? && q.phase.cached.Some? {
      EarnedGrows(b.log, [], q.repository, q.phase.cached.value);
    }
    forall k | 0 <= k < |next.log| && BrokeredToken(config, next, next.log[k])
      ensures Issued(next.log[..k], next.log[k].repository, next.log[k].authorization.value)
    {
      if k < |b.log| {
        assert next.log[k] == b.log[k] && next.log[..k] == b.log[..k];
        assert BrokeredToken(config, b, b.log[k]);
      } else {
        assert next.log[..k] == b.log;
      }
    }
  }

  lemma DirectPhase(config: Config, b: Broker, id: nat)
    requires RequestsTraced(config, b) && id in b.requests
    ensures b.requests[id].phase.Direct? ==> IsDirect(config, b.requests[id].authorization)
  {
  }

  lemma ArrivalKept(config: Config, b: Broker, action: Action)
    requires Invariant(config, b) && action.Arrive?
    ensures CacheEarned(Step(config, b, action)) && TokensStayHome(config, Step(config, b, action))
  {
    hide Earned, Issued, ValidTrace, InPhase;
    var next := Step(config, b, action);
    forall k | 0 <= k < |next.log| && BrokeredToken(config, next, next.log[k])
      ensures Issued(next.log[..k], next.log[k].repository, next.log[k].authorization.value)
    {
      assert b.log[k] in b.log;
      assert BrokeredToken(config, b, b.log[k]);
    }
  }

  /** Every interleaving keeps the invariant. */
  lemma {:induction false} Reachable(config: Config, actions: seq<Action>)
    ensures Invariant(config, Run(config, actions))
  {
    hide RequestsTraced, CacheEarned, TokensStayHome, Step;
    if actions == [] {
      Initially(config);
    } else {
      var before, last := Run(config, actions[..|actions| - 1]), actions[|actions| - 1];
      Reachable(config, actions[..|actions| - 1]);
      TracedKept(config, before, last);
      if last.Arrive? {
        ArrivalKept(config, before, last);
      } else if last.id in before.requests {
        CacheEarnedKept(config, before, last.id, last.env);
        TokensStayHomeKept(config, before, last.id, last.env);
      } else {
        NothingHappens(config, before, last);
      }
    }
  }

  lemma NothingHappens(config: Config, b: Broker, action: Action)
    requires action.Advance? && action.id !in b.requests
    ensures Step(config, b, action) == b
  {
  }

  lemma Initially(config: Config)
    ensures Invariant(config, IDLE)
  {
  }

  /** Every cached token was issued for its repository and then accepted with status 200. */
  lemma CachedTokensEarned(config: Config, actions: seq<Action>, repository: string)
    requires repository in Run(config, actions).cache
    ensures Earned(Run(config, actions).log, repository, Run(config, actions).cache[repository].authorization)
  {
    hide Earned, Run, RequestsTraced, TokensStayHome;
    Reachable(config, actions);
  }

  /** No token reaches a repository it was not issued for. */
  lemma TokensNeverCross(config: Config, actions: seq<Action>, k: nat)
    requires var b := Run(config, actions);
      k < |b.log| && BrokeredToken(config, b, b.log[k])
    ensures var log := Run(config, actions).log;
      Issued(log[..k], log[k].repository, log[k].authorization.value)
  {
    hide Issued, BrokeredToken, Run, RequestsTraced, CacheEarned;
    Reachable(config, actions);
  }

  /** A request makes at most two resource sends and one token exchange, the exchange only after a
      refusal with status 401 and only with a token service under the configured origin; it is
      served exactly when its last send was answered with status 200. */
  lemma RequestsBounded(config: Config, actions: seq<Action>, id: nat)
    requires id in Run(config, actions).requests
    ensures var b := Run(config, actions);
      ValidTrace(config, b.requests[id], id, EventsOf(b.log, id))
      && Sends(EventsOf(b.log, id)) <= 2 && Exchanges(EventsOf(b.log, id)) <= 1
      && (b.requests[id].phase == Done(Served) ==> Won(EventsOf(b.log, id)))
      && (b.requests[id].phase.Done? && Won(EventsOf(b.log, id)) ==> b.requests[id].phase.outcome == Served)
  {
    hide Run, CacheEarned, TokensStayHome, Trusted, EventsOf;
    Reachable(config, actions);
    var b := Run(config, actions);
    TraceCounts(config, b.requests[id], id, EventsOf(b.log, id));
  }

  function Sends(events: seq<Event>): nat {
    if events == [] then 0 else Sends(events[..|events| - 1]) + if events[|events| - 1].Sent? then 1 else 0
  }

  function Exchanges(events: seq<Event>): nat {
    if events == [] then 0 else Exchanges(events[..|events| - 1]) + if events[|events| - 1].Exchanged? then 1 else 0
  }

  lemma NothingCounted()
    ensures Sends([]) == 0 && Exchanges([]) == 0
  {
  }

  lemma CountsSnoc(init: seq<Event>, last: Event)
    ensures Sends(init + [last]) == Sends(init) + if last.Sent? then 1 else 0
    ensures Exchanges(init + [last]) == Exchanges(init) + if last.Exchanged? then 1 else 0
  {
    assert (init + [last])[..|init|] == init;
  }

  lemma TraceCounts(config: Config, q: Request, id: nat, events: seq<Event>)
    requires ValidTrace(config, q, id, events)
    ensures Sends(events) <= 2 && Exchanges(events) <= 1
  {
    hide Trusted, Sends, Exchanges;
    NothingCounted();
    if |events| >= 1 {
      CountsSnoc([], events[0]);
      assert events[..1] == [] + [events[0]];
    }
    if |events| >= 2 {
      CountsSnoc(events[..1], events[1]);
      assert events[..2] == events[..1] + [events[1]];
    }
    if |events| >= 3 {
      CountsSnoc(events[..2], events[2]);
      assert events == events[..2] + [events[2]];
    }
    assert events == events[..|events|];
  }

  // ---- The cache of an interleaving is the cache of its operations ----

  function OperationOf(q: Request, env: Environment): seq<Operation> {
    match q.phase
    case Asking => [Get(q.repository, env.now)]
    case Rejected(cached, _) => if cached.Some? then [Remove(q.repository)] else []
    case Storing(token, expiresIn) => [Insert(q.repository, token, expiresIn, env.now)]
    case _ => []
  }

  function OperationsOf(config: Config, actions: seq<Action>): seq<Operation> {
    if actions == [] then [] else
      var last := actions[|actions| - 1];
      var before := Run(config, actions[..|actions| - 1]);
      OperationsOf(config, actions[..|actions| - 1])
        + if last.Advance? && last.id in before.requests then OperationOf(before.requests[last.id], last.env) else []
  }

  /** So what whole runs of the cache keep holds under every interleaving of requests. */
  lemma {:induction false} CacheIsARun(config: Config, actions: seq<Action>)
    ensures Run(config, actions).cache == Contents(OperationsOf(config, actions))
    ensures |Run(config, actions).cache| <= 16
  {
    hide PhaseAfter, EventsOn, IsDirect;
    if actions != [] {
      var last := actions[|actions| - 1];
      var before := Run(config, actions[..|actions| - 1]);
      var operations := OperationsOf(config, actions[..|actions| - 1]);
      CacheIsARun(config, actions[..|actions| - 1]);
      assert operations + [] == operations;
      if last.Advance? && last.id in before.requests {
        OneOperation(before.cache, before.requests[last.id], last.env, operations);
      }
    }
    CacheBounded(OperationsOf(config, actions));
  }

  /** Under every interleaving a token the cache hands out was inserted for that repository, nothing
      has settled the repository since, and its reduced lifetime is not over. */
  lemma SharedAnswersAreFresh(config: Config, actions: seq<Action>, repository: string, now: int)
    requires Answer(Run(config, actions).cache, repository, now).Some?
    ensures var operations := OperationsOf(config, actions);
      exists i: nat, token :: CameFrom(operations, i, repository, token)
        && Answer(Run(config, actions).cache, repository, now) == Some(token.authorization)
        && var seconds := operations[i].Seconds();
          now < operations[i].now + (if seconds < 900 then seconds else 900) * 1_000_000_000 - 30 * 1_000_000_000
  {
    hide Run, Contents, Answer, CameFrom, OperationsOf;
    CacheIsARun(config, actions);
    AnswersAreFresh(OperationsOf(config, actions), repository, now);
  }

  lemma OneOperation(cache: Entries, q: Request, env: Environment, operations: seq<Operation>)
    requires cache == Contents(operations)
    ensures CacheAfter(cache, q, env) == Contents(operations + OperationOf(q, env))
  {
    hide Live, Inserted, Contents;
    if OperationOf(q, env) == [] {
      assert operations + [] == operations;
    } else {
      ContentsSnoc(operations, OperationOf(q, env)[0]);
    }
  }

  // ---- Direct requests and the cache ----

  function Without(actions: seq<Action>, ids: set<nat>): seq<Action> {
    if actions == [] then [] else
      var last := actions[|actions| - 1];
      Without(actions[..|actions| - 1], ids) + if last.id in ids then [] else [last]
  }

  /** The ids of exactly the requests that come with their own authorization, or that a proxy
      without credentials receives. */
  ghost predicate AreDirect(config: Config, actions: seq<Action>, ids: set<nat>) {
    forall a | a in actions && a.Arrive? :: a.id in ids <==> IsDirect(config, a.authorization)
  }

  ghost predicate SameOutside(a: Broker, b: Broker, ids: set<nat>) {
    && (forall id | id !in ids :: id in a.requests <==> id in b.requests)
    && (forall id | id !in ids && id in a.requests :: a.requests[id] == b.requests[id])
    && (forall id | id !in ids :: EventsOf(a.log, id) == EventsOf(b.log, id))
  }

  lemma StepOutside(config: Config, a: Broker, b: Broker, ids: set<nat>, action: Action)
    requires SameOutside(a, b, ids) && a.cache == b.cache && action.id !in ids
    ensures SameOutside(Step(config, a, action), Step(config, b, action), ids)
    ensures Step(config, a, action).cache == Step(config, b, action).cache
  {
    hide PhaseAfter, CacheAfter, EventsOn, EventsOf, IsDirect;
    if action.Advance? && action.id in a.requests {
      var added := EventsOn(action.id, a.requests[action.id], action.env);
      OwnEvents(action.id, a.requests[action.id], action.env);
      forall id | id !in ids
        ensures EventsOf(a.log + added, id) == EventsOf(b.log + added, id)
      {
        EventsOfSnoc(a.log, added, id);
        EventsOfSnoc(b.log, added, id);
      }
    }
  }

  lemma StepInside(config: Config, a: Broker, b: Broker, ids: set<nat>, action: Action)
    requires SameOutside(a, b, ids) && action.id in ids
    ensures SameOutside(Step(config, a, action), b, ids)
  {
    hide PhaseAfter, CacheAfter, EventsOn, EventsOf, IsDirect;
    if action.Advance? && action.id in a.requests {
      var added := EventsOn(action.id, a.requests[action.id], action.env);
      OwnEvents(action.id, a.requests[action.id], action.env);
      forall id | id !in ids
        ensures EventsOf(a.log + added, id) == EventsOf(a.log, id)
      {
        EventsOfSnoc(a.log, added, id);
        assert EventsOf(a.log, id) + [] == EventsOf(a.log, id);
      }
    }
  }

  /** Requests in `ids` are in a phase that does not touch the cache. */
  ghost predicate AloofFromCache(config: Config, b: Broker, ids: set<nat>) {
    forall id | id in b.requests :: id in ids <==> IsDirect(config, b.requests[id].authorization)
  }

  lemma DirectLeavesCache(config: Config, b: Broker, id: nat, env: Environment)
    requires RequestsTraced(config, b) && id in b.requests && IsDirect(config, b.requests[id].authorization)
    ensures Step(config, b, Advance(id, env)).cache == b.cache
  {
  }

  /** Requests that carry their own authorization neither read nor write the cache: taking them out
      of a run changes neither the cache nor anything any other request does or sees. */
  lemma {:induction false} DirectRequestsInvisible(config: Config, actions: seq<Action>, ids: set<nat>)
    requires AreDirect(config, actions, ids)
    ensures Run(config, Without(actions, ids)).cache == Run(config, actions).cache
    ensures SameOutside(Run(config, actions), Run(config, Without(actions, ids)), ids)
    ensures AloofFromCache(config, Run(config, actions), ids)
  {
    hide RequestsTraced, CacheEarned, TokensStayHome, EventsOf, IsDirect, Step, SameOutside, AloofFromCache;
    if actions != [] {
      var last := actions[|actions| - 1];
      var before := actions[..|actions| - 1];
      assert last in actions && forall a | a in before :: a in actions;
      DirectRequestsInvisible(config, before, ids);
      var b, reduced := Run(config, before), Run(config, Without(before, ids));
      StaysAloof(config, b, ids, last);
      if last.id in ids {
        assert Without(actions, ids) == Without(before, ids);
        StepInside(config, b, reduced, ids, last);
        Reachable(config, before);
        DirectStepLeavesCache(config, b, ids, last);
      } else {
        assert Without(actions, ids)[..|Without(before, ids)|] == Without(before, ids);
        StepOutside(config, b, reduced, ids, last);
      }
    } else {
      NothingYet(config, ids);
    }
  }

  lemma NothingYet(config: Config, ids: set<nat>)
    ensures SameOutside(IDLE, IDLE, ids) && AloofFromCache(config, IDLE, ids)
  {
  }

  lemma StaysAloof(config: Config, b: Broker, ids: set<nat>, action: Action)
    requires AloofFromCache(config, b, ids)
    requires action.Arrive? ==> (action.id in ids <==> IsDirect(config, action.authorization))
    ensures AloofFromCache(config, Step(config, b, action), ids)
  {
    hide IsDirect, PhaseAfter, CacheAfter, EventsOn;
  }

  lemma DirectStepLeavesCache(config: Config, b: Broker, ids: set<nat>, action: Action)
    requires RequestsTraced(config, b) && AloofFromCache(config, b, ids) && action.id in ids
    ensures Step(config, b, action).cache == b.cache
  {
    hide RequestsTraced, CacheAfter, PhaseAfter, EventsOn, IsDirect;
    if action.Advance? && action.id in b.requests {
      DirectLeavesCache(config, b, action.id, action.env);
    }
  }
}
