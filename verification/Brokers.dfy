/** Token brokering: interleaved registry requests that share one token cache, locked only for each
    cache operation. Replies, grants and the clock come from an environment that may do anything. */
module Brokers {
  import opened Wrappers
  import opened Challenges
  import opened BearerDiscovery
  import opened TokenCaches

  const MAX_TOKEN_BYTES := 8 * 1024
  const OK := 200
  const UNAUTHORIZED := 401

  datatype Config = Config(origin: string, credentials: bool)

  /** What came back from the registry: a status with its challenges, or a timeout or broken transport. */
  datatype Reply = Response(status: nat, challenges: seq<string>) | NoResponse

  predicate Accepted(reply: Reply) {
    reply.Response? && reply.status == OK
  }

  predicate Unauthorized(reply: Reply) {
    reply.Response? && reply.status == UNAUTHORIZED
  }

  datatype Grant = Grant(token: string, expiresIn: Option<nat>)

  datatype Environment = Environment(now: int, reply: Reply, grant: Option<Grant>)

  datatype Outcome = Served | Refused(reply: Reply)

  function Classify(reply: Reply): Outcome {
    if Accepted(reply) then Served else Refused(reply)
  }

  /** Where a request is in `request_response_method`; every await lies between two phases. */
  datatype Phase =
    | Direct
    | Asking
    | Sending(cached: Option<string>)
    | Rejected(cached: Option<string>, reply: Reply)
    | Exchanging(refusal: Reply, challenge: BearerChallenge)
    | Retrying(token: string, expiresIn: Option<nat>)
    | Storing(token: string, expiresIn: Option<nat>)
    | Done(outcome: Outcome)

  datatype Request = Request(repository: string, authorization: Option<string>, phase: Phase)

  /** What an observer on the network sees. */
  datatype Event =
    | Sent(id: nat, repository: string, authorization: Option<string>, reply: Reply)
    | Exchanged(id: nat, repository: string, challenge: BearerChallenge, granted: Option<string>)

  datatype Broker = Broker(cache: Entries, requests: map<nat, Request>, log: seq<Event>)

  const IDLE := Broker(map[], map[], [])

  datatype Action =
    | Arrive(id: nat, repository: string, authorization: Option<string>)
    | Advance(id: nat, env: Environment)

  /** The request uses what its caller gave it and no token of the proxy's. */
  predicate IsDirect(config: Config, authorization: Option<string>) {
    authorization.Some? || !config.credentials
  }

  /** `bearer_authorization`: the header value for a token fit to be sent. */
  function BearerAuthorization(token: string): Option<string> {
    if token == "" || |token| > MAX_TOKEN_BYTES || exists c | c in token :: IsControl(c) then None
    else Some("Bearer " + token)
  }

  function Granted(grant: Option<Grant>): Option<string> {
    if grant.None? then None else BearerAuthorization(grant.value.token)
  }

  function Step(config: Config, b: Broker, action: Action): Broker {
    match action
    case Arrive(id, repository, authorization) =>
      if id in b.requests then b else
        var phase := if IsDirect(config, authorization) then Direct else Asking;
        b.(requests := b.requests[id := Request(repository, authorization, phase)])
    case Advance(id, env) =>
      if id !in b.requests then b else
        Broker(CacheAfter(b.cache, b.requests[id], env),
               b.requests[id := b.requests[id].(phase := PhaseAfter(config, b.cache, b.requests[id], env))],
               b.log + EventsOn(id, b.requests[id], env))
  }

  function PhaseAfter(config: Config, cache: Entries, q: Request, env: Environment): Phase {
    match q.phase
    case Direct => Done(Classify(env.reply))
    case Asking => Sending(Answer(cache, q.repository, env.now))
    case Sending(cached) =>
      if Unauthorized(env.reply) then Rejected(cached, env.reply) else Done(Classify(env.reply))
    case Rejected(_, reply) =>
      (match Choose(if reply.Response? then reply.challenges else [], config.origin)
       case None => Done(Refused(reply))
       case Some(challenge) => Exchanging(reply, challenge))
    case Exchanging(refusal, _) =>
      (match Granted(env.grant)
       case None => Done(Refused(refusal))
       case Some(token) => Retrying(token, env.grant.value.expiresIn))
    case Retrying(token, expiresIn) =>
      if Accepted(env.reply) then Storing(token, expiresIn) else Done(Classify(env.reply))
    case Storing(_, _) => Done(Served)
    case Done(outcome) => Done(outcome)
  }

  function CacheAfter(cache: Entries, q: Request, env: Environment): Entries {
    match q.phase
    case Asking => Live(cache, env.now)
    case Rejected(cached, _) => if cached.Some? then cache - {q.repository} else cache
    case Storing(token, expiresIn) => Inserted(cache, q.repository, token, expiresIn, env.now)
    case _ => cache
  }

  function EventsOn(id: nat, q: Request, env: Environment): seq<Event> {
    match q.phase
    case Direct => [Sent(id, q.repository, q.authorization, env.reply)]
    case Sending(cached) => [Sent(id, q.repository, cached, env.reply)]
    case Exchanging(_, challenge) => [Exchanged(id, q.repository, challenge, Granted(env.grant))]
    case Retrying(token, _) => [Sent(id, q.repository, Some(token), env.reply)]
    case _ => []
  }

  function Run(config: Config, actions: seq<Action>): Broker {
    if actions == [] then IDLE
    else Step(config, Run(config, actions[..|actions| - 1]), actions[|actions| - 1])
  }

  // ---- What one request has done ----

  function EventsOf(log: seq<Event>, id: nat): seq<Event> {
    if log == [] then [] else
      var last := log[|log| - 1];
      EventsOf(log[..|log| - 1], id) + if last.id == id then [last] else []
  }

  lemma EventsOfSnoc(log: seq<Event>, added: seq<Event>, id: nat)
    requires |added| <= 1
    ensures EventsOf(log + added, id) == EventsOf(log, id) + if added != [] && added[0].id == id then added else []
  {
    if added == [] {
      assert log + added == log;
    } else {
      assert (log + added)[..|log|] == log;
    }
  }

  lemma {:induction false} EventsOfWithin(log: seq<Event>, id: nat)
    ensures forall e | e in EventsOf(log, id) :: e in log && e.id == id
  {
    if log != [] {
      EventsOfWithin(log[..|log| - 1], id);
    }
  }

  /** What the network may see of one request. A direct request is sent once, with what its caller
      gave. A brokered one is sent at most twice, the second time only after a refusal and with the
      token its single exchange with the origin's token service granted. */
  ghost predicate ValidTrace(config: Config, q: Request, id: nat, events: seq<Event>) {
    && (forall e | e in events :: e.id == id && e.repository == q.repository)
    && (if IsDirect(config, q.authorization) then
          |events| <= 1 && (events != [] ==> events[0].Sent? && events[0].authorization == q.authorization)
        else
          && |events| <= 3
          && (|events| >= 1 ==> events[0].Sent?)
          && (|events| >= 2 ==>
            Unauthorized(events[0].reply) && events[1].Exchanged? && Trusted(events[1].challenge, config.origin))
          && (|events| == 3 ==>
            events[1].granted.Some? && events[2].Sent? && events[2].authorization == events[1].granted))
  }

  /** How far a request in this phase has got, in terms of what the network has seen. */
  ghost predicate InPhase(config: Config, q: Request, events: seq<Event>) {
    match q.phase
    case Direct => IsDirect(config, q.authorization) && events == []
    case Asking => !IsDirect(config, q.authorization) && events == []
    case Sending(_) => !IsDirect(config, q.authorization) && events == []
    case Rejected(cached, reply) =>
      !IsDirect(config, q.authorization) && |events| == 1 && Unauthorized(reply)
      && events[0] == Sent(events[0].id, q.repository, cached, reply)
    case Exchanging(refusal, challenge) =>
      !IsDirect(config, q.authorization) && |events| == 1 && events[0].Sent? && events[0].reply == refusal
      && Unauthorized(refusal) && Trusted(challenge, config.origin)
    case Retrying(token, _) =>
      !IsDirect(config, q.authorization) && |events| == 2 && events[1].Exchanged? && events[1].granted == Some(token)
    case Storing(token, _) =>
      !IsDirect(config, q.authorization) && |events| == 3 && Won(events)
      && events[1].Exchanged? && events[1].granted == Some(token)
    case Done(outcome) =>
      events != [] && (outcome.Served? <==> Won(events))
  }

  /** The last thing seen is a reply with status 200. */
  ghost predicate Won(events: seq<Event>) {
    events != [] && events[|events| - 1].Sent? && Accepted(events[|events| - 1].reply)
  }

  ghost predicate RequestsTraced(config: Config, b: Broker) {
    && (forall e | e in b.log :: e.id in b.requests)
    && forall id | id in b.requests ::
        ValidTrace(config, b.requests[id], id, EventsOf(b.log, id))
          && InPhase(config, b.requests[id], EventsOf(b.log, id))
  }

  lemma {:induction false} NoEventsOf(log: seq<Event>, id: nat)
    requires forall e | e in log :: e.id != id
    ensures EventsOf(log, id) == []
  {
    if log != [] {
      NoEventsOf(log[..|log| - 1], id);
    }
  }

  lemma RequestAdvances(config: Config, cache: Entries, q: Request, id: nat, env: Environment, events: seq<Event>)
    requires ValidTrace(config, q, id, events) && InPhase(config, q, events)
    ensures var after := q.(phase := PhaseAfter(config, cache, q, env));
      && ValidTrace(config, after, id, events + EventsOn(id, q, env))
      && InPhase(config, after, events + EventsOn(id, q, env))
  {
    hide Trusted, Choose, IsDirect, Granted, Answer;
    var added := EventsOn(id, q, env);
    assert added == [] ==> events + added == events;
    if q.phase.Rejected? && Choose(q.phase.reply.challenges, config.origin).Some? {
      ChosenIsTrusted(q.phase.reply.challenges, config.origin);
    }
  }

  lemma TracedKept(config: Config, b: Broker, action: Action)
    requires RequestsTraced(config, b)
    ensures RequestsTraced(config, Step(config, b, action))
  {
    hide ValidTrace, InPhase, PhaseAfter, CacheAfter, EventsOf, IsDirect;
    var next := Step(config, b, action);
    match action {
      case Arrive(id, repository, authorization) =>
        if id !in b.requests {
          NoEventsOf(b.log, id);
          Fresh(config, repository, authorization, id);
        }
      case Advance(id, env) =>
        if id in b.requests {
          var added := EventsOn(id, b.requests[id], env);
          OwnEvents(id, b.requests[id], env);
          RequestAdvances(config, b.cache, b.requests[id], id, env, EventsOf(b.log, id));
          forall other | other in b.requests
            ensures EventsOf(next.log, other) == EventsOf(b.log, other) + if other == id then added else []
          {
            EventsOfSnoc(b.log, added, other);
            assert EventsOf(b.log, other) + [] == EventsOf(b.log, other);
          }
          forall other | other in b.requests && other != id
            ensures EventsOf(next.log, other) == EventsOf(b.log, other)
          {
            assert EventsOf(b.log, other) + [] == EventsOf(b.log, other);
          }
        }
    }
  }

  lemma Fresh(config: Config, repository: string, authorization: Option<string>, id: nat)
    ensures var q := Request(repository, authorization, if IsDirect(config, authorization) then Direct else Asking);
      ValidTrace(config, q, id, []) && InPhase(config, q, [])
  {
  }

  lemma OwnEvents(id: nat, q: Request, env: Environment)
    ensures |EventsOn(id, q, env)| <= 1
    ensures forall e | e in EventsOn(id, q, env) :: e.id == id && e.repository == q.repository
  {
  }
}
