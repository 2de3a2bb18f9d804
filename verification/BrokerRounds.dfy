/** What one request does from its first step to its last: what it sends, what it exchanges, how it ends
    and what it leaves in the cache. */
module BrokerRounds {
  import opened Wrappers
  import opened Challenges
  import opened BearerDiscovery
  import opened TokenCaches
  import opened Brokers

  /** The request takes these steps and no other request takes any. */
  function RunAlone(config: Config, b: Broker, id: nat, envs: seq<Environment>): Broker
    decreases |envs|
  {
    if envs == [] then b else RunAlone(config, Step(config, b, Advance(id, envs[0])), id, envs[1..])
  }

  lemma SixSteps(config: Config, b: Broker, id: nat, envs: seq<Environment>)
    requires |envs| == 6
    ensures var b1 := Step(config, b, Advance(id, envs[0]));
      var b2 := Step(config, b1, Advance(id, envs[1]));
      var b3 := Step(config, b2, Advance(id, envs[2]));
      var b4 := Step(config, b3, Advance(id, envs[3]));
      var b5 := Step(config, b4, Advance(id, envs[4]));
      RunAlone(config, b, id, envs) == Step(config, b5, Advance(id, envs[5]))
  {
    hide Step, RunAlone;
    var b1 := Step(config, b, Advance(id, envs[0]));
    var b2 := Step(config, b1, Advance(id, envs[1]));
    var b3 := Step(config, b2, Advance(id, envs[2]));
    var b4 := Step(config, b3, Advance(id, envs[3]));
    var b5 := Step(config, b4, Advance(id, envs[4]));
    assert envs[0..] == envs;
    NextStep(config, b, id, envs, 0);
    NextStep(config, b1, id, envs, 1);
    NextStep(config, b2, id, envs, 2);
    NextStep(config, b3, id, envs, 3);
    NextStep(config, b4, id, envs, 4);
    NextStep(config, b5, id, envs, 5);
    NoSteps(config, Step(config, b5, Advance(id, envs[5])), id);
    assert envs[6..] == [];
  }

  lemma NextStep(config: Config, b: Broker, id: nat, envs: seq<Environment>, i: nat)
    requires i < |envs|
    ensures RunAlone(config, b, id, envs[i..]) ==
      RunAlone(config, Step(config, b, Advance(id, envs[i])), id, envs[i + 1..])
    ensures RunAlone(config, b, id, envs[|envs|..]) == b
  {
    hide Step;
    assert envs[i..][1..] == envs[i + 1..];
    NoSteps(config, b, id);
    NoSteps(config, Step(config, b, Advance(id, envs[i])), id);
    assert envs[|envs|..] == [];
  }

  lemma NoSteps(config: Config, b: Broker, id: nat)
    ensures RunAlone(config, b, id, []) == b
  {
  }

  /** The token that is cached for the repository and not expired. */
  function Usable(cache: Entries, repository: string, now: int): Option<string> {
    if repository in cache && now < cache[repository].expiresAt then Some(cache[repository].authorization) else None
  }

  /** The header value for a granted token that can be sent: not empty, at most 8 KiB, no controls. */
  function Sendable(grant: Option<Grant>): Option<string> {
    if grant.Some? && 0 < |grant.value.token| <= 8192
      && forall c | c in grant.value.token :: 0x20 <= c as int && c as int != 0x7F then
      Some("Bearer " + grant.value.token)
    else None
  }

  lemma GrantedIsSendable(grant: Option<Grant>)
    ensures Granted(grant) == Sendable(grant)
  {
    if grant.Some? {
      var token := grant.value.token;
      assert (exists c | c in token :: IsControl(c)) <==>
        !forall c | c in token :: 0x20 <= c as int && c as int != 0x7F;
    }
  }

  predicate Has(reply: Reply, status: nat) {
    reply.Response? && reply.status == status
  }

  /** How a request ends whose last reply is this. */
  function EndsWith(reply: Reply): Outcome {
    if Has(reply, 200) then Served else Refused(reply)
  }

  /** The whole course of a brokered request, decided by what happens at its six awaits: the cache is
      asked, the request is sent with what it has, and after a 401 with a usable challenge one token is
      asked for and, if it can be sent, the request is sent once more with it. */
  lemma BrokeredCourse(config: Config, b: Broker, id: nat, envs: seq<Environment>)
    requires |envs| == 6 && id in b.requests && b.requests[id].phase == Asking
    ensures var repository := b.requests[id].repository;
      var first := Sent(id, repository, Usable(b.cache, repository, envs[0].now), envs[1].reply);
      var after := RunAlone(config, b, id, envs);
      && id in after.requests
      && if !Has(envs[1].reply, 401) || Choose(envs[1].reply.challenges, config.origin).None? then
        after.log == b.log + [first] && after.requests[id].phase == Done(EndsWith(envs[1].reply))
      else
        var challenge := Choose(envs[1].reply.challenges, config.origin).value;
        var token := Sendable(envs[3].grant);
        var exchange := Exchanged(id, repository, challenge, token);
        if token.None? then
          after.log == b.log + [first, exchange] && after.requests[id].phase == Done(Refused(envs[1].reply))
        else
          && after.log == b.log + [first, exchange, Sent(id, repository, token, envs[4].reply)]
          && after.requests[id].phase == Done(EndsWith(envs[4].reply))
  {
    hide Choose, Live, Inserted, Granted, Sendable;
    SixSteps(config, b, id, envs);
    GrantedIsSendable(envs[3].grant);
    AnswerIsUsable(b.cache, b.requests[id].repository, envs[0].now);
  }

  lemma AnswerIsUsable(cache: Entries, repository: string, now: int)
    ensures Answer(cache, repository, now) == Usable(cache, repository, now)
  {
  }

  /** A request with its caller's own authorization, or of a proxy without credentials, is sent once
      with that and ends with the reply; any other is brokered. Neither touches anything else. */
  lemma DirectCourse(
    config: Config, b: Broker, id: nat, repository: string, authorization: Option<string>, env: Environment)
    requires id !in b.requests
    ensures var arrived := Step(config, b, Arrive(id, repository, authorization));
      var after := Step(config, arrived, Advance(id, env));
      && id in arrived.requests && arrived.cache == b.cache && arrived.log == b.log
      && if authorization.Some? || !config.credentials then
        && after.log == b.log + [Sent(id, repository, authorization, env.reply)] && after.cache == b.cache
        && id in after.requests && after.requests[id].phase == Done(EndsWith(env.reply))
      else
        arrived.requests[id] == Request(repository, authorization, Asking)
  {
  }

  // ---- What is left in the cache ----

  lemma LiveTells(cache: Entries, now: int)
    ensures forall k :: k in Live(cache, now) <==> k in cache && now < cache[k].expiresAt
    ensures forall k | k in Live(cache, now) :: Live(cache, now)[k] == cache[k]
  {
  }

  lemma InsertedTells(cache: Entries, repository: string, token: string, expiresIn: Option<nat>, now: int)
    ensures var operation := Insert(repository, token, expiresIn, now);
      var after := Inserted(cache, repository, token, expiresIn, now);
      if operation.Seconds() < 30 then after == cache
      else repository in after && after[repository] == CachedToken(token, operation.End())
  {
    hide Lifetime, WithoutFirst;
    LifetimeInSeconds(Insert(repository, token, expiresIn, now));
  }

  /** The cache operations of the course, one after the other. */
  lemma CourseCache(config: Config, b: Broker, id: nat, envs: seq<Environment>)
    requires |envs| == 6 && id in b.requests && b.requests[id].phase == Asking
    ensures var repository := b.requests[id].repository;
      var live := Live(b.cache, envs[0].now);
      var left := if Answer(b.cache, repository, envs[0].now).Some? then live - {repository} else live;
      var retried := Has(envs[1].reply, 401)
        && Choose(envs[1].reply.challenges, config.origin).Some? && Granted(envs[3].grant).Some?;
      RunAlone(config, b, id, envs).cache ==
        if !Has(envs[1].reply, 401) then live
        else if retried && Has(envs[4].reply, 200) then
          Inserted(left, repository, Granted(envs[3].grant).value, envs[3].grant.value.expiresIn, envs[5].now)
        else left
  {
    hide Choose, Live, Inserted, Granted, Answer;
    SixSteps(config, b, id, envs);
    GrantedIsGiven(envs[3].grant);
  }

  lemma GrantedIsGiven(grant: Option<Grant>)
    ensures Granted(grant).Some? ==> grant.Some?
  {
  }

  /** What a brokered request leaves for its repository. A token that was accepted after an exchange is
      kept to the end of its time if 30 seconds or more were granted. A token that was refused is gone.
      Otherwise what was cached and not expired stays. */
  lemma CacheAfterCourse(config: Config, b: Broker, id: nat, envs: seq<Environment>)
    requires |envs| == 6 && id in b.requests && b.requests[id].phase == Asking
    ensures var repository := b.requests[id].repository;
      var usable := Usable(b.cache, repository, envs[0].now);
      var cache := RunAlone(config, b, id, envs).cache;
      var retried := Has(envs[1].reply, 401) && Choose(envs[1].reply.challenges, config.origin).Some?
        && Sendable(envs[3].grant).Some? && Has(envs[4].reply, 200);
      && (retried && Insert(repository, "", envs[3].grant.value.expiresIn, envs[5].now).Seconds() >= 30 ==>
            repository in cache
            && cache[repository] == CachedToken(
              "Bearer " + envs[3].grant.value.token,
              Insert(repository, "", envs[3].grant.value.expiresIn, envs[5].now).End()))
      && (retried && Insert(repository, "", envs[3].grant.value.expiresIn, envs[5].now).Seconds() < 30 ==>
            repository !in cache)
      && (!retried && Has(envs[1].reply, 401) ==> repository !in cache)
      && (!Has(envs[1].reply, 401) ==>
            (repository in cache <==> usable.Some?)
            && (usable.Some? ==> cache[repository] == b.cache[repository]))
  {
    hide Choose, Live, Inserted, Granted, Answer, RunAlone;
    CourseCache(config, b, id, envs);
    GrantedIsSendable(envs[3].grant);
    var repository := b.requests[id].repository;
    AnswerIsUsable(b.cache, repository, envs[0].now);
    LiveTells(b.cache, envs[0].now);
    var live := Live(b.cache, envs[0].now);
    if Sendable(envs[3].grant).Some? {
      var token, expiresIn := Sendable(envs[3].grant).value, envs[3].grant.value.expiresIn;
      InsertedTells(live, repository, token, expiresIn, envs[5].now);
      InsertedTells(live - {repository}, repository, token, expiresIn, envs[5].now);
    }
  }

  // ---- Every request ends ----

  /** How many steps a request still takes at most. */
  function StepsLeft(phase: Phase): nat {
    match phase
    case Direct => 1
    case Asking => 6
    case Sending(_) => 5
    case Rejected(_, _) => 4
    case Exchanging(_, _) => 3
    case Retrying(_, _) => 2
    case Storing(_, _) => 1
    case Done(_) => 0
  }

  /** The steps of one request among the actions. */
  function OwnSteps(actions: seq<Action>, id: nat): nat {
    if actions == [] then 0 else
      var last := actions[|actions| - 1];
      OwnSteps(actions[..|actions| - 1], id) + if last.Advance? && last.id == id then 1 else 0
  }

  function RunFrom(config: Config, b: Broker, actions: seq<Action>): Broker {
    if actions == [] then b
    else Step(config, RunFrom(config, b, actions[..|actions| - 1]), actions[|actions| - 1])
  }

  /** Whatever else happens in between and whatever comes back, a request is done after at most six
      steps of its own. */
  lemma {:induction false} RequestsEnd(config: Config, b: Broker, actions: seq<Action>, id: nat)
    requires id in b.requests
    ensures var after := RunFrom(config, b, actions);
      && id in after.requests
      && (after.requests[id].phase.Done? || StepsLeft(after.requests[id].phase) + OwnSteps(actions, id) <= 6)
      && (OwnSteps(actions, id) >= 6 ==> after.requests[id].phase.Done?)
  {
    hide PhaseAfter, CacheAfter, EventsOn;
    if actions != [] {
      var init, last := actions[..|actions| - 1], actions[|actions| - 1];
      RequestsEnd(config, b, init, id);
      var before := RunFrom(config, b, init);
      if last.Advance? && last.id == id {
        OneStepLess(config, before.cache, before.requests[id], last.env);
      }
    }
  }

  lemma OneStepLess(config: Config, cache: Entries, q: Request, env: Environment)
    ensures var next := StepsLeft(PhaseAfter(config, cache, q, env));
      PhaseAfter(config, cache, q, env).Done? || next < StepsLeft(q.phase)
  {
    hide Choose, Granted, Answer;
  }
}
