/** The bounded, expiring token cache, and what its answers mean over whole runs. */
module TokenCaches {
  import opened Wrappers
  import opened Orders

  // Instants and durations are counted in nanoseconds.
  const SECOND := 1_000_000_000
  const DEFAULT_LIFETIME := 60 * SECOND
  const CACHE_TTL := 15 * 60 * SECOND
  const EXPIRY_SKEW := 30 * SECOND
  const CACHE_CAPACITY := 16

  datatype CachedToken = CachedToken(authorization: string, expiresAt: int)

  type Entries = map<string, CachedToken>

  /** The lifetime the token service grants, at most the cache's own. */
  function Lifetime(expiresIn: Option<nat>): nat {
    var granted := if expiresIn.None? then DEFAULT_LIFETIME else expiresIn.value * SECOND;
    if granted < CACHE_TTL then granted else CACHE_TTL
  }

  // ---- The cache as a map ----

  function Live(entries: Entries, now: int): Entries {
    map k | k in entries && entries[k].expiresAt > now :: entries[k]
  }

  function Answer(entries: Entries, repository: string, now: int): Option<string> {
    if repository in Live(entries, now) then Some(entries[repository].authorization) else None
  }

  /** `pop_first`: drops the entry with the least key. */
  function WithoutFirst(entries: Entries): Entries
    requires entries != map[]
  {
    TextStrictTotal();
    entries - {Least(TextLess, entries.Keys)}
  }

  function Inserted(entries: Entries, repository: string, authorization: string, expiresIn: Option<nat>, now: int)
    : Entries
  {
    if Lifetime(expiresIn) < EXPIRY_SKEW then entries else
      var room := if |entries| >= CACHE_CAPACITY && repository !in entries then WithoutFirst(entries) else entries;
      room[repository := CachedToken(authorization, now + Lifetime(expiresIn) - EXPIRY_SKEW)]
  }

  // ---- The cache itself ----

  class TokenCache {
    var entries: Entries

    constructor ()
      ensures entries == map[]
    {
      entries := map[];
    }

    method Get(repository: string, now: int) returns (authorization: Option<string>)
      modifies this
      ensures entries == Live(old(entries), now)
      ensures authorization == Answer(old(entries), repository, now)
    {
      DiscardExpired(now);
      authorization := if repository in entries then Some(entries[repository].authorization) else None;
    }

    method Remove(repository: string)
      modifies this
      ensures entries == old(entries) - {repository}
    {
      entries := entries - {repository};
    }

    method Insert(repository: string, authorization: string, expiresIn: Option<nat>, now: int)
      modifies this
      ensures entries == Inserted(old(entries), repository, authorization, expiresIn, now)
    {
      var lifetime := Lifetime(expiresIn);
      if lifetime < EXPIRY_SKEW {
        return;
      }
      if |entries| >= CACHE_CAPACITY && repository !in entries {
        PopFirst();
      }
      entries := entries[repository := CachedToken(authorization, now + (lifetime - EXPIRY_SKEW))];
    }

    method PopFirst()
      requires entries != map[]
      modifies this
      ensures entries == WithoutFirst(old(entries))
    {
      TextStrictTotal();
      entries := entries - {Least(TextLess, entries.Keys)};
    }

    method DiscardExpired(now: int)
      modifies this
      ensures entries == Live(old(entries), now)
    {
      entries := map k | k in entries && entries[k].expiresAt > now :: entries[k];
    }
  }

  // ---- Runs ----

  datatype Operation =
    | Get(repository: string, now: int)
    | Remove(repository: string)
    | Insert(repository: string, authorization: string, expiresIn: Option<nat>, now: int)
  {
    /** The seconds granted with an inserted token: a minute where the token service does not say. */
    function Seconds(): nat
      requires Insert?
    {
      if expiresIn.None? then 60 else expiresIn.value
    }

    /** The end of an inserted token: 30 seconds before the granted time is over, or before 15 minutes
        are where more is granted. */
    function End(): int
      requires Insert?
    {
      now + (if Seconds() < 900 then Seconds() else 900) * 1_000_000_000 - 30 * 1_000_000_000
    }

    /** Decides what the cache has for a repository: a removal, or an insertion that is kept, which
        takes a grant of at least 30 seconds. */
    predicate Settles(repository: string) {
      this.repository == repository && (Remove? || (Insert? && Seconds() >= 30))
    }
  }

  /** The cache's own reckoning of lifetimes, in nanoseconds, agrees. */
  lemma LifetimeInSeconds(operation: Operation)
    requires operation.Insert?
    ensures operation.now + Lifetime(operation.expiresIn) - EXPIRY_SKEW == operation.End()
    ensures Lifetime(operation.expiresIn) < EXPIRY_SKEW <==> operation.Seconds() < 30
  {
  }

  ghost function After(entries: Entries, operation: Operation): Entries {
    match operation
    case Get(_, now) => Live(entries, now)
    case Remove(repository) => entries - {repository}
    case Insert(repository, authorization, expiresIn, now) =>
      Inserted(entries, repository, authorization, expiresIn, now)
  }

  ghost function Contents(operations: seq<Operation>): Entries {
    if operations == [] then map[] else After(Contents(operations[..|operations| - 1]), operations[|operations| - 1])
  }

  lemma ContentsSnoc(operations: seq<Operation>, last: Operation)
    ensures Contents(operations + [last]) == After(Contents(operations), last)
  {
    assert (operations + [last])[..|operations|] == operations;
  }

  lemma SmallerMap(a: Entries, b: Entries)
    requires a.Keys <= b.Keys
    ensures |a| <= |b|
  {
    CardinalityMonotone(a.Keys, b.Keys);
    assert |a.Keys| == |a| && |b.Keys| == |b|;
  }

  lemma {:induction false} CardinalityMonotone(a: set<string>, b: set<string>)
    requires a <= b
    ensures |a| <= |b|
  {
    if a != {} {
      var x :| x in a;
      CardinalityMonotone(a - {x}, b - {x});
    }
  }

  lemma AfterBounded(entries: Entries, operation: Operation)
    requires |entries| <= CACHE_CAPACITY
    ensures |After(entries, operation)| <= CACHE_CAPACITY
  {
    hide Lifetime;
    match operation
    case Get(_, now) => SmallerMap(Live(entries, now), entries);
    case Remove(repository) => SmallerMap(entries - {repository}, entries);
    case Insert(repository, authorization, expiresIn, now) =>
      if |entries| >= CACHE_CAPACITY && repository !in entries {
        var room := WithoutFirst(entries);
        TextStrictTotal();
        assert room.Keys == entries.Keys - {Least(TextLess, entries.Keys)};
        assert |room| == |room.Keys| == |entries.Keys| - 1;
      }
  }

  /** The cache never holds more than 16 tokens. */
  lemma {:induction false} CacheBounded(operations: seq<Operation>)
    ensures |Contents(operations)| <= 16
  {
    if operations != [] {
      CacheBounded(operations[..|operations| - 1]);
      AfterBounded(Contents(operations[..|operations| - 1]), operations[|operations| - 1]);
    }
  }

  /** The `i`th operation inserted this token for this repository, and nothing has settled the
      repository since. */
  ghost predicate CameFrom(operations: seq<Operation>, i: nat, repository: string, token: CachedToken) {
    && i < |operations| && operations[i].Insert? && operations[i].Settles(repository)
    && token ==
      CachedToken(operations[i].authorization, operations[i].End())
    && forall j | i < j < |operations| :: !operations[j].Settles(repository)
  }

  lemma {:induction false} EntriesCameFrom(operations: seq<Operation>, repository: string) returns (i: nat)
    requires repository in Contents(operations)
    ensures CameFrom(operations, i, repository, Contents(operations)[repository])
  {
    hide Lifetime, After;
    var n := |operations| - 1;
    var before, last := operations[..n], operations[n];
    EntriesAfter(Contents(before), last, repository);
    if last.Settles(repository) {
      i := n;
    } else {
      i := EntriesCameFrom(before, repository);
    }
  }

  /** What an operation leaves for a repository was there before, or it inserted it. */
  lemma EntriesAfter(entries: Entries, operation: Operation, repository: string)
    requires repository in After(entries, operation)
    ensures operation.Settles(repository) ==> operation.Insert?
    ensures operation.Settles(repository) ==>
      After(entries, operation)[repository] ==
        CachedToken(operation.authorization, operation.End())
    ensures !operation.Settles(repository) ==>
      repository in entries && After(entries, operation)[repository] == entries[repository]
  {
    hide Lifetime;
    if operation.Insert? {
      LifetimeInSeconds(operation);
    }
  }

  /** No answer is stale: an answered token was inserted for that very repository, with nothing
      settling the repository since, and the question comes before the end of its lifetime, at most
      15 minutes, less 30 seconds. The clock need not be monotone for this. */
  lemma {:induction false} AnswersAreFresh(operations: seq<Operation>, repository: string, now: int)
    requires Answer(Contents(operations), repository, now).Some?
    ensures exists i: nat, token ::
      CameFrom(operations, i, repository, token)
      && Answer(Contents(operations), repository, now) == Some(token.authorization)
      && now < operations[i].now
        + (if operations[i].Seconds() < 900 then operations[i].Seconds() else 900) * 1_000_000_000 - 30 * 1_000_000_000
  {
    var i := EntriesCameFrom(operations, repository);
    assert CameFrom(operations, i, repository, Contents(operations)[repository]);
  }

  // ---- What the bound costs ----

  predicate Timed(operation: Operation) {
    !operation.Remove?
  }

  ghost predicate MonotoneClock(operations: seq<Operation>) {
    forall i, j | 0 <= i < j < |operations| && Timed(operations[i]) && Timed(operations[j]) ::
      operations[i].now <= operations[j].now
  }

  /** The token an unbounded cache that never expires anything would hold. */
  function Latest(operations: seq<Operation>, repository: string): Option<CachedToken> {
    if operations == [] then None else
      var last := operations[|operations| - 1];
      if !last.Settles(repository) then Latest(operations[..|operations| - 1], repository)
      else if last.Remove? then None
      else Some(CachedToken(last.authorization, last.End()))
  }

  ghost predicate Stale(operations: seq<Operation>, token: Option<CachedToken>) {
    token.Some? ==>
      exists i :: 0 <= i < |operations| && Timed(operations[i]) && operations[i].now >= token.value.expiresAt
  }

  /** While insertions concern at most 16 repositories, nothing is evicted. */
  lemma NoEviction(entries: Entries, repository: string, repositories: set<string>)
    requires entries.Keys <= repositories && repository in repositories && |repositories| <= CACHE_CAPACITY
    ensures |entries| >= CACHE_CAPACITY ==> repository in entries
  {
    if repository !in entries {
      CardinalityMonotone(entries.Keys + {repository}, repositories);
      assert |entries.Keys + {repository}| == |entries.Keys| + 1;
      assert |entries.Keys| == |entries|;
    }
  }

  lemma {:induction false} KeysInserted(operations: seq<Operation>, repositories: set<string>)
    requires forall o | o in operations :: o.repository in repositories
    ensures Contents(operations).Keys <= repositories
  {
    hide Lifetime;
    if operations != [] {
      var n := |operations| - 1;
      assert operations[n] in operations;
      KeysInserted(operations[..n], repositories);
    }
  }

  ghost predicate Remembers(operations: seq<Operation>, repository: string) {
    var entries := Contents(operations);
    if repository in entries then Latest(operations, repository) == Some(entries[repository])
    else Stale(operations, Latest(operations, repository))
  }

  lemma StaleSnoc(before: seq<Operation>, operations: seq<Operation>, token: Option<CachedToken>)
    requires before <= operations && Stale(before, token)
    ensures Stale(operations, token)
  {
    if token.Some? {
      var i :| 0 <= i < |before| && Timed(before[i]) && before[i].now >= token.value.expiresAt;
      assert operations[i] == before[i];
    }
  }

  /** What an operation that evicts nothing does for one repository. */
  lemma EntryStep(entries: Entries, operation: Operation, repository: string)
    requires |entries| >= CACHE_CAPACITY ==> operation.repository in entries
    ensures operation.Settles(repository) ==> (repository in After(entries, operation) <==> operation.Insert?)
    ensures operation.Settles(repository) && operation.Insert? ==>
      After(entries, operation)[repository] ==
        CachedToken(operation.authorization, operation.End())
    ensures !operation.Settles(repository) && repository in After(entries, operation) ==>
      repository in entries && After(entries, operation)[repository] == entries[repository]
    ensures !operation.Settles(repository) && repository in entries && repository !in After(entries, operation) ==>
      Timed(operation) && operation.now >= entries[repository].expiresAt
  {
    hide Lifetime, WithoutFirst;
    if operation.Insert? {
      LifetimeInSeconds(operation);
    }
  }

  lemma {:induction false} CacheRemembers(operations: seq<Operation>, repositories: set<string>, repository: string)
    requires forall o | o in operations :: o.repository in repositories
    requires |repositories| <= CACHE_CAPACITY
    ensures Remembers(operations, repository)
  {
    hide Lifetime, After;
    if operations != [] {
      var n := |operations| - 1;
      var before, last := operations[..n], operations[n];
      assert last in operations;
      CacheRemembers(before, repositories, repository);
      KeysInserted(before, repositories);
      NoEviction(Contents(before), last.repository, repositories);
      EntryStep(Contents(before), last, repository);
      if repository !in Contents(before) {
        StaleSnoc(before, operations, Latest(before, repository));
      }
    }
  }

  /** With a monotone clock and at most 16 repositories, the bounded cache answers exactly what an
      unbounded one would: the latest kept token while it lasts, and nothing after a removal. */
  lemma BoundedAnswersAsUnbounded(operations: seq<Operation>, repositories: set<string>, repository: string, now: int)
    requires forall o | o in operations :: o.repository in repositories
    requires |repositories| <= 16
    requires MonotoneClock(operations + [Get(repository, now)])
    ensures var latest := Latest(operations, repository);
      Answer(Contents(operations), repository, now)
        == if latest.Some? && now < latest.value.expiresAt then Some(latest.value.authorization) else None
  {
    hide Contents, Latest;
    CacheRemembers(operations, repositories, repository);
    var all := operations + [Get(repository, now)];
    var latest := Latest(operations, repository);
    if repository !in Contents(operations) && latest.Some? {
      var i :| 0 <= i < |operations| && Timed(operations[i]) && operations[i].now >= latest.value.expiresAt;
      assert all[i] == operations[i] && all[|operations|] == Get(repository, now);
    }
  }

  /** A full cache makes room for a new repository by dropping the entry with the least name, and
      only that one; an insertion for a known repository, or into a cache with room, drops nothing. */
  lemma RoomIsMade(entries: Entries, operation: Operation)
    requires operation.Insert? && operation.Seconds() >= 30
    ensures var after, known := After(entries, operation), operation.repository in entries;
      && operation.repository in after
      && (forall k | k in after && k != operation.repository :: k in entries && after[k] == entries[k])
      && (|entries| < 16 || known ==> forall k | k in entries :: k in after)
      && (|entries| >= 16 && !known ==>
        exists least :: least in entries && (forall k | k in entries && k != least :: TextLess(least, k))
          && forall k | k in entries :: k in after <==> k != least)
  {
    hide Lifetime, TextLess, StrictTotal;
    LifetimeInSeconds(operation);
    TextStrictTotal();
    if |entries| >= 16 && operation.repository !in entries {
      var least := Least(TextLess, entries.Keys);
      assert least in entries;
    }
  }
}
