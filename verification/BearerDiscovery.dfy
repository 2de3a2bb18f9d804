/** Choosing the Bearer challenge of a response whose token service lies under the registry's origin. */
module BearerDiscovery {
  import opened Wrappers
  import opened Challenges
  import opened Paths

  const MAX_CHALLENGE_BYTES := 8 * 1024

  datatype BearerChallenge = BearerChallenge(realm: string, service: string)

  /** A header value that can be read as text: visible ASCII, spaces and tabs. */
  predicate Readable(value: string) {
    forall c | c in value :: 0x20 <= c as int < 0x7F || c == '\t'
  }

  predicate IsPlainPath(path: string) {
    Starts(path, '/') && forall c | c in path :: c !in {'?', '#', '\\'} && !IsControl(c)
  }

  predicate ServiceIsSafe(service: string) {
    0 < |service| <= 256 && forall c | c in service :: IsAlphanumeric(c) || c in {'.', '-', '_'}
  }

  /** The realm is a path under the origin and the service a plain name. */
  predicate Trusted(challenge: BearerChallenge, origin: string) {
    origin <= challenge.realm && IsPlainPath(challenge.realm[|origin|..]) && ServiceIsSafe(challenge.service)
  }

  /** The value is short enough and its parameters name this challenge, which the origin covers. */
  ghost predicate Offers(value: string, origin: string, challenge: BearerChallenge) {
    && |value| <= MAX_CHALLENGE_BYTES
    && BearerParameters(value).Some?
    && var parameters := BearerParameters(value).value;
    && "realm" in parameters && "service" in parameters
    && challenge == BearerChallenge(parameters["realm"], parameters["service"])
    && Trusted(challenge, origin)
  }

  /** What a single value offers. */
  function OfferOf(value: string, origin: string): (r: Option<BearerChallenge>)
    ensures r.Some? ==> Offers(value, origin, r.value)
    ensures r.None? ==> forall challenge :: !Offers(value, origin, challenge)
  {
    if |value| > MAX_CHALLENGE_BYTES then None else
      match BearerParameters(value)
      case None => None
      case Some(parameters) =>
        if "realm" !in parameters || "service" !in parameters then None else
          var challenge := BearerChallenge(parameters["realm"], parameters["service"]);
          if Trusted(challenge, origin) then Some(challenge) else None
  }

  function Choose(values: seq<string>, origin: string): Option<BearerChallenge> {
    if values == [] || !Readable(values[0]) then None
    else if OfferOf(values[0], origin).Some? then OfferOf(values[0], origin)
    else Choose(values[1..], origin)
  }

  /** `bearer_challenge`. */
  method FindChallenge(values: seq<string>, origin: string) returns (r: Option<BearerChallenge>)
    ensures r == Choose(values, origin)
  {
    hide BearerParameters, Trusted;
    var i := 0;
    while i < |values|
      invariant 0 <= i <= |values| && Choose(values[i..], origin) == Choose(values, origin)
    {
      assert values[i..][1..] == values[i + 1..];
      var value := values[i];
      if !Readable(value) {
        return None;
      }
      i := i + 1;
      if |value| > MAX_CHALLENGE_BYTES {
        continue;
      }
      var parsed := BearerParametersOf(value);
      if parsed.None? || "realm" !in parsed.value || "service" !in parsed.value {
        continue;
      }
      var challenge := BearerChallenge(parsed.value["realm"], parsed.value["service"]);
      if !Trusted(challenge, origin) {
        continue;
      }
      return Some(challenge);
    }
    return None;
  }

  /** The first `n` values are readable and offer nothing. */
  ghost predicate Searched(values: seq<string>, origin: string, n: nat) {
    n <= |values| && forall j | 0 <= j < n :: Readable(values[j]) && OfferOf(values[j], origin).None?
  }

  /** The challenge chosen is the one of the first value that offers one, and every value up to it
      is readable: an unreadable value ends the search, even with usable ones after it. */
  lemma {:induction false} ChooseIff(values: seq<string>, origin: string, challenge: BearerChallenge)
    ensures Choose(values, origin) == Some(challenge) <==>
      exists i | 0 <= i < |values| ::
        Searched(values, origin, i) && Readable(values[i]) && Offers(values[i], origin, challenge)
  {
    hide OfferOf, Readable;
    if values != [] {
      ChooseIff(values[1..], origin, challenge);
      forall i | 0 <= i < |values[1..]| && Searched(values[1..], origin, i)
          && Readable(values[1..][i]) && Offers(values[1..][i], origin, challenge)
          && Readable(values[0]) && OfferOf(values[0], origin).None?
        ensures Searched(values, origin, i + 1) && Readable(values[i + 1]) && Offers(values[i + 1], origin, challenge)
      {
        assert values[1..][i] == values[i + 1];
        forall j | 0 <= j < i + 1 ensures Readable(values[j]) && OfferOf(values[j], origin).None? {
          assert j > 0 ==> values[1..][j - 1] == values[j];
        }
      }
      forall i | 0 < i < |values| && Searched(values, origin, i) && Readable(values[i])
        && Offers(values[i], origin, challenge)
        ensures Searched(values[1..], origin, i - 1) && values[1..][i - 1] == values[i]
        ensures OfferOf(values[0], origin).None?
      {
        assert forall j | 0 <= j < i - 1 :: values[1..][j] == values[j + 1];
      }
    }
  }

  lemma ChosenIsTrusted(values: seq<string>, origin: string)
    requires Choose(values, origin).Some?
    ensures Trusted(Choose(values, origin).value, origin)
  {
    hide Trusted;
    ChooseIff(values, origin, Choose(values, origin).value);
  }

  /** The authority of a URL: what follows the scheme up to the next slash. */
  function UpToSlash(s: string): (t: string)
  {
    if s == "" || s[0] == '/' then "" else [s[0]] + UpToSlash(s[1..])
  }

  /** Credentials go to no other host: the authority of a trusted realm is the origin's. */
  lemma RealmKeepsAuthority(challenge: BearerChallenge, scheme: string, authority: string)
    requires '/' !in authority
    requires Trusted(challenge, scheme + "://" + authority)
    ensures |challenge.realm| >= |scheme| + 3
    ensures challenge.realm[..|scheme| + 3] == scheme + "://"
    ensures UpToSlash(challenge.realm[|scheme| + 3..]) == authority
    ensures IsPlainPath(challenge.realm[|scheme| + 3 + |authority|..])
  {
    var origin := scheme + "://" + authority;
    var path := challenge.realm[|origin|..];
    assert challenge.realm == origin + path;
    assert challenge.realm[|scheme| + 3..] == authority + path;
    UpToSlashStops(authority, path);
  }

  lemma {:induction false} UpToSlashStops(authority: string, path: string)
    requires '/' !in authority && Starts(path, '/')
    ensures UpToSlash(authority + path) == authority
  {
    if authority == "" {
      assert authority + path == path;
    } else {
      assert (authority + path)[1..] == authority[1..] + path;
      UpToSlashStops(authority[1..], path);
    }
  }
}
