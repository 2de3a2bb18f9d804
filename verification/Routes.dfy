/** The public route namespace: every accepted target spells exactly one route. */
module Routes {
  import opened Wrappers
  import opened Ascii
  import opened Text
  import opened Paths
  import opened PathSpelling
  import opened Challenges
  import opened Locators

  const ROUTE_PREFIX := "/r/v1/"

  datatype Protocol = Pypi | Rpm | Apt | Pacman

  function Name(protocol: Protocol): string {
    match protocol
    case Pypi => "pypi"
    case Rpm => "rpm"
    case Apt => "apt"
    case Pacman => "pacman"
  }

  function ParseProtocol(name: string): (r: Option<Protocol>)
    ensures forall protocol | Name(protocol) == name :: r == Some(protocol)
    ensures r.Some? ==> Name(r.value) == name
  {
    if name == "pypi" then Some(Pypi)
    else if name == "rpm" then Some(Rpm)
    else if name == "apt" then Some(Apt)
    else if name == "pacman" then Some(Pacman)
    else None
  }

  predicate IsPlainChar(c: char) {
    c as int < 128 && !IsControl(c) && c !in {'?', '#', '%', '\\'}
  }

  predicate IsPlain(s: string) {
    forall c | c in s :: IsPlainChar(c)
  }

  predicate IsPathSegment(segment: string) {
    IsPlainSegment(segment) && ';' !in segment && forall c | c in segment :: !IsControl(c)
  }

  /** `parse_protocol_path`. */
  predicate ValidProtocolPath(path: string) {
    && 0 < |path| <= Locators.MAX_PROTOCOL_PATH_BYTES && IsAscii(path)
    && 0 < |Components(path)| <= Locators.MAX_PROTOCOL_PATH_SEGMENTS
    && forall segment | segment in Components(path) :: IsPathSegment(segment)
  }

  datatype Route = Route(repository: string, protocol: Protocol, path: string)

  ghost predicate ValidRoute(route: Route) {
    ValidRepository(route.repository) && ValidProtocolPath(route.path) && IsPlain(route.path)
  }

  ghost function PrintRoute(route: Route): string
    requires ValidRoute(route)
  {
    ROUTE_PREFIX + (Locator(route.repository) + ['/'] + (Name(route.protocol) + ['/'] + route.path))
  }

  ghost predicate Spells(target: string, route: Route) {
    ValidRoute(route) && PrintRoute(route) == target
  }

  /** The text before and after the first slash. */
  function Cut(s: string): (r: Option<(string, string)>)
    ensures r.Some? ==> '/' !in r.value.0 && r.value.0 + ['/'] + r.value.1 == s
  {
    var i := IndexOf(s, '/');
    if i == |s| then None else Some((s[..i], s[i + 1..]))
  }

  lemma CutConcat(head: string, tail: string)
    requires '/' !in head
    ensures Cut(head + ['/'] + tail) == Some((head, tail))
  {
    IndexOfConcat(head, '/', tail);
    var s := head + ['/'] + tail;
    assert s[..|head|] == head && s[|head| + 1..] == tail;
  }

  /** The parts of a spelled target, as the parser cuts them out. */
  lemma SpelledParts(target: string, route: Route)
    requires Spells(target, route)
    ensures ROUTE_PREFIX <= target
    ensures Cut(target[|ROUTE_PREFIX|..]) ==
      Some((Locator(route.repository), Name(route.protocol) + ['/'] + route.path))
    ensures Cut(Name(route.protocol) + ['/'] + route.path) == Some((Name(route.protocol), route.path))
    ensures '/' !in Locator(route.repository) && Locator(route.repository) != ""
  {
    hide ValidRepository, Locator, ValidProtocolPath, IsPlain;
    var locator, rest := Locator(route.repository), Name(route.protocol) + ['/'] + route.path;
    assert target[|ROUTE_PREFIX|..] == locator + ['/'] + rest;
    LocatorBounded(route.repository);
    assert '/' in locator ==> IsDigit('/');
    NameChars(route.protocol);
    CutConcat(locator, rest);
    CutConcat(Name(route.protocol), route.path);
  }

  lemma NameChars(protocol: Protocol)
    ensures '/' !in Name(protocol) && IsPlain(Name(protocol))
  {
  }

  lemma DigitsArePlain(s: string)
    requires AllDigits(s)
    ensures IsPlain(s)
  {
  }

  lemma PlainConcat(a: string, b: string)
    requires IsPlain(a) && IsPlain(b)
    ensures IsPlain(a + b)
  {
  }

  lemma SpelledIsPlain(target: string, route: Route)
    requires Spells(target, route)
    ensures IsPlain(target) && target != "" && target[0] == '/'
  {
    hide ValidRepository, Locator, ValidProtocolPath, IsPlain, Name;
    var locator, name := Locator(route.repository), Name(route.protocol);
    LocatorBounded(route.repository);
    DigitsArePlain(locator);
    NameChars(route.protocol);
    PrefixIsPlain();
    PlainConcat(name, ['/']);
    PlainConcat(name + ['/'], route.path);
    PlainConcat(locator, ['/']);
    PlainConcat(locator + ['/'], name + ['/'] + route.path);
    PlainConcat(ROUTE_PREFIX, locator + ['/'] + (name + ['/'] + route.path));
  }

  lemma PrefixIsPlain()
    ensures IsPlain(ROUTE_PREFIX) && IsPlain(['/'])
  {
    assert IsPlain("/r/v1/");
  }

  /** The three parts of a target below the route prefix, each but the last without a slash. */
  ghost predicate Shaped(target: string, locator: string, name: string, path: string) {
    && target == ROUTE_PREFIX + (locator + ['/'] + (name + ['/'] + path))
    && '/' !in locator && '/' !in name
  }

  ghost predicate ShapeReason(locator: string, name: string, path: string, enabled: set<Protocol>, error: RouteError) {
    match error
    case InvalidRepositoryLocator =>
      !exists repository :: ValidRepository(repository) && Locator(repository) == locator
    case InvalidRepository => !exists repository :: ValidRepository(repository) && Locator(repository) == locator
    case UnsupportedProtocol => name !in {"pypi", "rpm", "apt", "pacman"}
    case DisabledProtocol => exists protocol :: protocol !in enabled && Name(protocol) == name
    case InvalidProtocolPath => !ValidProtocolPath(path)
    case _ => false
  }

  /** The reason behind each refusal: the method, the shape of the target, or the first part of it that
      is not usable. */
  ghost predicate Refused(verb: string, target: string, enabled: set<Protocol>, error: RouteError) {
    match error
    case UnsupportedMethod => verb !in {"GET", "HEAD"}
    case InvalidRoute => !IsPlain(target) || !exists locator, name, path :: Shaped(target, locator, name, path)
    case _ => exists locator, name, path ::
      Shaped(target, locator, name, path) && ShapeReason(locator, name, path, enabled, error)
  }

  lemma ReasonsTell(locator: string, name: string, path: string, enabled: set<Protocol>)
    ensures (!exists repository :: ValidRepository(repository) && Locator(repository) == locator) ==>
      && ShapeReason(locator, name, path, enabled, InvalidRepositoryLocator)
      && ShapeReason(locator, name, path, enabled, InvalidRepository)
    ensures locator == "" ==>
      && ShapeReason(locator, name, path, enabled, InvalidRepositoryLocator)
      && !exists repository :: ValidRepository(repository) && Locator(repository) == locator
    ensures ParseProtocol(name).None? ==> ShapeReason(locator, name, path, enabled, UnsupportedProtocol)
    ensures ParseProtocol(name).Some? && ParseProtocol(name).value !in enabled ==>
      ShapeReason(locator, name, path, enabled, DisabledProtocol)
    ensures !ValidProtocolPath(path) ==> ShapeReason(locator, name, path, enabled, InvalidProtocolPath)
  {
    hide ValidRepository, Locator, ValidProtocolPath;
    forall repository | ValidRepository(repository) && Locator(repository) == locator ensures locator != "" {
      LocatorBounded(repository);
    }
  }

  /** The two cuts below the prefix, when there is enough to cut. */
  function CutTwice(target: string): Option<(string, string, string)> {
    if !(ROUTE_PREFIX <= target) || Cut(target[|ROUTE_PREFIX|..]).None? then None else
      var (locator, rest) := Cut(target[|ROUTE_PREFIX|..]).value;
      if Cut(rest).None? then None else Some((locator, Cut(rest).value.0, Cut(rest).value.1))
  }

  /** They find the parts of a target exactly when it has them. */
  lemma CutShaped(target: string, locator: string, name: string, path: string)
    ensures CutTwice(target) == Some((locator, name, path)) <==> Shaped(target, locator, name, path)
  {
    hide Cut;
    if Shaped(target, locator, name, path) {
      CutConcat(locator, name + ['/'] + path);
      CutConcat(name, path);
      assert target[|ROUTE_PREFIX|..] == locator + ['/'] + (name + ['/'] + path);
    }
    if CutTwice(target).Some? {
      assert target == ROUTE_PREFIX + target[|ROUTE_PREFIX|..];
    }
  }

  lemma RefusalsTell(verb: string, target: string, enabled: set<Protocol>)
    ensures verb !in {"GET", "HEAD"} ==> Refused(verb, target, enabled, UnsupportedMethod)
    ensures target == "" || target[0] != '/' || !IsPlain(target) || CutTwice(target).None? ==>
      Refused(verb, target, enabled, InvalidRoute)
    ensures CutTwice(target).Some? ==>
      var (locator, name, path) := CutTwice(target).value;
      forall error | error != UnsupportedMethod && error != InvalidRoute
        && ShapeReason(locator, name, path, enabled, error) :: Refused(verb, target, enabled, error)
  {
    hide CutTwice, IsPlain, ShapeReason;
    forall locator, name, path | Shaped(target, locator, name, path)
      ensures target != "" && target[0] == '/' && CutTwice(target) == Some((locator, name, path))
    {
      CutShaped(target, locator, name, path);
    }
    if CutTwice(target).Some? {
      var (locator, name, path) := CutTwice(target).value;
      CutShaped(target, locator, name, path);
    }
  }

  /** The parts of a target, one after the other. */
  method ParseParts(locator: string, name: string, path: string, enabled: set<Protocol>, strict: bool)
    returns (r: Result<Route, RouteError>)
    ensures r.Ok? ==>
      && ValidRepository(r.value.repository) && Locator(r.value.repository) == locator
      && Name(r.value.protocol) == name && r.value.protocol in enabled
      && r.value.path == path && ValidProtocolPath(path)
    ensures r.Err? ==> r.error != UnsupportedMethod && r.error != InvalidRoute
    ensures r.Err? ==> ShapeReason(locator, name, path, enabled, r.error)
    ensures r.Err? ==> !exists repository, protocol ::
      ValidRepository(repository) && Locator(repository) == locator
      && protocol in enabled && Name(protocol) == name && ValidProtocolPath(path)
  {
    hide ValidRepository, Locator, ValidProtocolPath, Name, ShapeReason;
    ReasonsTell(locator, name, path, enabled);
    if locator == "" {
      return Err(RouteError.InvalidRepositoryLocator);
    }
    var repository := DecodeLocator(locator, strict);
    if repository.Err? {
      return Err(repository.error);
    }
    var protocol := ParseProtocol(name);
    if protocol.None? {
      return Err(UnsupportedProtocol);
    }
    if protocol.value !in enabled {
      ProtocolNamed(protocol.value, name);
      return Err(DisabledProtocol);
    }
    if !ValidProtocolPath(path) {
      return Err(InvalidProtocolPath);
    }
    return Ok(Route(repository.value, protocol.value, path));
  }

  /** `parse_raw_target`: accepts exactly the spellings of valid routes to enabled protocols. */
  method ParseRawTarget(verb: string, target: string, enabled: set<Protocol>, strict: bool)
    returns (r: Result<Route, RouteError>)
    ensures r.Ok? ==> Spells(target, r.value) && r.value.protocol in enabled
    ensures r.Ok? <==> verb in {"GET", "HEAD"} && exists route :: Spells(target, route) && route.protocol in enabled
    ensures r.Err? ==> Refused(verb, target, enabled, r.error)
  {
    hide ValidRepository, Locator, ValidProtocolPath, Name, IsPlain, Spells, ShapeReason, Refused, Cut;
    Unspelled(target, enabled);
    RefusalsTell(verb, target, enabled);
    if verb !in {"GET", "HEAD"} {
      return Err(UnsupportedMethod);
    }
    if target == "" || !IsPlain(target) || target[0] != '/' {
      return Err(InvalidRoute);
    }
    if !(ROUTE_PREFIX <= target) {
      return Err(InvalidRoute);
    }
    var parts := Cut(target[|ROUTE_PREFIX|..]);
    if parts.None? {
      return Err(InvalidRoute);
    }
    var (locator, rest) := parts.value;
    var more := Cut(rest);
    if more.None? {
      return Err(InvalidRoute);
    }
    var (name, path) := more.value;
    CutShaped(target, locator, name, path);
    r := ParseParts(locator, name, path, enabled, strict);
    if r.Ok? {
      Respelled(target, r.value, name + ['/'] + path);
    }
  }

  lemma Respelled(target: string, route: Route, rest: string)
    requires ValidRepository(route.repository) && ValidProtocolPath(route.path) && IsPlain(target)
    requires ROUTE_PREFIX <= target && target[|ROUTE_PREFIX|..] == Locator(route.repository) + ['/'] + rest
    requires rest == Name(route.protocol) + ['/'] + route.path
    ensures Spells(target, route)
  {
    hide ValidRepository, Locator, ValidProtocolPath, Name, IsPlainChar;
    assert target == ROUTE_PREFIX + target[|ROUTE_PREFIX|..];
    assert forall c | c in route.path :: c in rest && c in target[|ROUTE_PREFIX|..] && c in target;
  }

  lemma ProtocolNamed(protocol: Protocol, name: string)
    requires Name(protocol) == name
    ensures forall other | Name(other) == name :: other == protocol
  {
  }

  /** What the parser finds when some route is spelled. */
  lemma Unspelled(target: string, enabled: set<Protocol>)
    ensures forall route | Spells(target, route) ::
      && target != "" && IsPlain(target) && target[0] == '/' && ROUTE_PREFIX <= target
      && Cut(target[|ROUTE_PREFIX|..]) == Some((Locator(route.repository), Name(route.protocol) + ['/'] + route.path))
      && Cut(Name(route.protocol) + ['/'] + route.path) == Some((Name(route.protocol), route.path))
      && Locator(route.repository) != "" && ValidRepository(route.repository) && ValidProtocolPath(route.path)
  {
    hide Cut, Locator, ValidRepository, ValidProtocolPath, Name, IsPlain;
    forall route | Spells(target, route)
      ensures && target != "" && IsPlain(target) && target[0] == '/' && ROUTE_PREFIX <= target
        && Cut(target[|ROUTE_PREFIX|..]) == Some((Locator(route.repository), Name(route.protocol) + ['/'] + route.path))
        && Cut(Name(route.protocol) + ['/'] + route.path) == Some((Name(route.protocol), route.path))
        && Locator(route.repository) != "" && ValidRepository(route.repository) && ValidProtocolPath(route.path)
    {
      SpelledParts(target, route);
      SpelledIsPlain(target, route);
    }
  }

  /** A target spells at most one route, and different accepted targets yield different routes. */
  lemma SpellingsUnique(target: string, other: string, route: Route, another: Route)
    requires Spells(target, route) && Spells(other, another)
    ensures target == other <==> route == another
  {
    hide Locator, ValidRepository, ValidProtocolPath, IsPlain, Cut, Name;
    if target == other {
      SpelledParts(target, route);
      SpelledParts(other, another);
      SpelledRepository(target, route);
      SpelledRepository(other, another);
      LocatorInjective(route.repository, another.repository);
      NameInjective(route.protocol, another.protocol);
    }
  }

  lemma SpelledRepository(target: string, route: Route)
    requires Spells(target, route)
    ensures ValidRepository(route.repository)
  {
  }

  lemma NameInjective(a: Protocol, b: Protocol)
    ensures Name(a) == Name(b) ==> a == b
  {
  }

  /** A route in plain words. */
  lemma RouteTells(route: Route)
    requires ValidRoute(route)
    ensures PrintRoute(route) == "/r/v1/" + Locator(route.repository) + "/"
      + (match route.protocol case Pypi => "pypi" case Rpm => "rpm" case Apt => "apt" case Pacman => "pacman")
      + "/" + route.path
  {
    hide ValidRepository, Locator, ValidProtocolPath, IsPlain;
  }

  /** The paths of package protocols are joins of at most 128 names of ASCII characters without
      controls and semicolons, none empty or a dot name, within 4,096 bytes. */
  lemma ProtocolPathTells(path: string)
    ensures ValidProtocolPath(path) <==>
      && 0 < |path| <= 4096 && IsAscii(path) && |Components(path)| <= 128
      && path == PathText(Components(path), path[|path| - 1] == '/')
      && forall name | name in Components(path) ::
          && name != "" && name != "." && name != ".." && '/' !in name && ';' !in name
          && forall c | c in name :: 0x20 <= c as int && c as int != 0x7F
  {
    hide Components, PathText, IsAscii;
    if path != "" {
      ComponentsJoin(path);
      ComponentsUnslashed(path);
    }
    forall name | name in Components(path) ensures IsPathSegment(name) <==>
      && name != "" && name != "." && name != ".." && ';' !in name
      && forall c | c in name :: 0x20 <= c as int && c as int != 0x7F
    {
    }
  }

  lemma ComponentsUnslashed(path: string)
    ensures forall name | name in Components(path) :: '/' !in name
  {
    hide Split;
    assert forall name | name in Components(path) :: name in Split(path, '/');
  }
}
