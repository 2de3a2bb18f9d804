/** The challenge registries send: a Bearer scheme in any case with a realm and a service, and when it is
    chosen. */
module OrdinaryChallenges {
  import opened Wrappers
  import opened Text
  import opened Challenges
  import opened ChallengeText
  import opened BearerDiscovery

  /** The word in any case. */
  predicate SpellsBearer(s: string) {
    |s| == 6 && s[0] in "bB" && s[1] in "eE" && s[2] in "aA" && s[3] in "rR" && s[4] in "eE" && s[5] in "rR"
  }

  lemma LowerAt(s: string, t: string)
    requires |s| == |t| && forall i | 0 <= i < |s| :: LowerChar(s[i]) == t[i]
    ensures Lower(s) == t
  {
  }

  lemma BearerTells(s: string)
    ensures IsBearer(s) <==> SpellsBearer(s)
  {
    if SpellsBearer(s) {
      LowerAt(s, "bearer");
    }
    if IsBearer(s) {
      assert |Lower(s)| == 6;
      assert forall i | 0 <= i < 6 :: Lower(s)[i] == LowerChar(s[i]) == "bearer"[i];
      assert "bearer" == ['b', 'e', 'a', 'r', 'e', 'r'];
    }
  }

  /** The tokens of section 5.6.2 of RFC 9110. */
  lemma TokenTells(s: string)
    ensures IsToken(s) <==> s != "" && forall c | c in s ::
      'a' <= c <= 'z' || 'A' <= c <= 'Z' || '0' <= c <= '9' || c in "!#$%&'*+-.^_`|~"
  {
  }

  /** Text that needs no escape in a quoted string. */
  predicate Quotable(s: string) {
    forall c | c in s :: 0x20 <= c as int && c as int != 0x7F && c != '"' && c != '\\'
  }

  function Plainly(s: string): seq<Piece> {
    if s == "" then [] else [Piece(s[0], false)] + Plainly(s[1..])
  }

  lemma {:induction false} PlainlySpelled(s: string)
    ensures PrintPieces(Plainly(s)) == s && TextOf(Plainly(s)) == s
    ensures Quotable(s) ==> ValidPieces(Plainly(s))
  {
    if s != "" {
      PlainlySpelled(s[1..]);
      var pieces := Plainly(s);
      assert pieces[0] == Piece(s[0], false) && pieces[1..] == Plainly(s[1..]);
      assert s == [s[0]] + s[1..];
      assert TextOf(pieces) == [s[0]] + TextOf(pieces[1..]);
      assert s[0] in s && forall c | c in s[1..] :: c in s;
    }
  }

  function QuotedParam(key: string, value: string): Parameter {
    Parameter("", key, "", "", Quoted(Plainly(value)), "")
  }

  lemma ParamSpelled(key: string, value: string)
    requires IsToken(key) && Quotable(value)
    ensures ValidParameter(QuotedParam(key, value)) && ValueOf(QuotedParam(key, value).value) == value
    ensures PrintParameter(QuotedParam(key, value)) == key + "=\"" + value + "\""
  {
    hide IsToken;
    PlainlySpelled(value);
    assert PrintParameter(QuotedParam(key, value)) == "" + (key + ("" + ("=" + ("" + (("\"" + (value + "\"")) + "")))));
  }

  function Ordinary(scheme: string, realm: string, service: string): Challenge {
    Challenge([], "", scheme, " ", [QuotedParam("realm", realm), QuotedParam("service", service)], "")
  }

  lemma OrdinarySpelled(scheme: string, realm: string, service: string)
    requires SpellsBearer(scheme) && Quotable(realm) && Quotable(service)
    ensures ValidChallenge(Ordinary(scheme, realm, service))
    ensures PrintChallenge(Ordinary(scheme, realm, service)) ==
      scheme + " realm=\"" + realm + "\",service=\"" + service + "\""
  {
    hide IsToken, ValidParameter, PrintParameter, IsBearer, Quotable;
    BearerTells(scheme);
    Words(scheme);
    ParamSpelled("realm", realm);
    ParamSpelled("service", service);
    var c := Ordinary(scheme, realm, service);
    var a, b := "realm" + "=\"" + realm + "\"", "service" + "=\"" + service + "\"";
    assert c.parameters[1..] == [c.parameters[1]];
    assert PrintParameters(c.parameters) == a + ("," + b);
    OrdinaryText(scheme, realm, service);
  }

  lemma OrdinaryText(scheme: string, realm: string, service: string)
    ensures var a, b := "realm" + "=\"" + realm + "\"", "service" + "=\"" + service + "\"";
      "" + ("" + (scheme + (" " + ((a + ("," + b)) + "")))) ==
        scheme + " realm=\"" + realm + "\",service=\"" + service + "\""
  {
    assert " realm=\"" == " " + "realm" + "=\"" && "\",service=\"" == "\"" + "," + "service" + "=\"";
  }

  lemma Words(scheme: string)
    requires SpellsBearer(scheme)
    ensures IsToken(scheme) && IsToken("realm") && IsToken("service")
    ensures Lower("realm") == "realm" && Lower("service") == "service" && "realm" != "service"
  {
    LowerAt("realm", "realm");
    LowerAt("service", "service");
    assert |"realm"| != |"service"|;
  }

  /** The ordinary challenge parses to its realm and service, whatever the case of its scheme. */
  lemma OrdinaryParses(scheme: string, realm: string, service: string)
    requires SpellsBearer(scheme) && Quotable(realm) && Quotable(service)
    ensures BearerParameters(scheme + " realm=\"" + realm + "\",service=\"" + service + "\"") ==
      Some(map["realm" := realm, "service" := service])
  {
    hide ValidChallenge, PrintChallenge, BearerParameters, ValueOf, PrintParameter, ValidParameter, Quotable, IsToken,
      Lower;
    var c := Ordinary(scheme, realm, service);
    OrdinarySpelled(scheme, realm, service);
    ChallengeParses(c);
    Words(scheme);
    ParamSpelled("realm", realm);
    ParamSpelled("service", service);
    CollectTwo(c.parameters[0], c.parameters[1], "realm", "service", realm, service);
  }

  lemma CollectTwo(p: Parameter, q: Parameter, a: string, b: string, x: string, y: string)
    requires Lower(p.key) == a && Lower(q.key) == b && a != b && ValueOf(p.value) == x && ValueOf(q.value) == y
    ensures Collect([p, q], map[]) == Some(map[a := x, b := y])
  {
    hide Lower, ValueOf;
    assert [p, q][1..] == [q] && [q][1..] == [];
    assert Collect([], map[a := x][b := y]) == Some(map[a := x, b := y]);
    assert Collect([q], map[a := x]) == Some(map[a := x, b := y]);
  }

  /** The printed value, and the one thing about its characters that is left open. */
  lemma ValueReadable(scheme: string, realm: string, service: string)
    requires SpellsBearer(scheme) && Quotable(realm) && Quotable(service)
    ensures var value := scheme + " realm=\"" + realm + "\",service=\"" + service + "\"";
      Readable(value) <==> forall c | c in value :: c as int < 0x7F
  {
    var value := scheme + " realm=\"" + realm + "\",service=\"" + service + "\"";
    forall c | c in value ensures 0x20 <= c as int {
      assert c in scheme || c in " realm=\"" || c in realm || c in "\",service=\"" || c in service || c in "\"";
    }
  }

  lemma TrustTells(realm: string, service: string, origin: string)
    requires Quotable(realm)
    ensures Trusted(BearerChallenge(realm, service), origin) <==>
      && origin < realm && realm[|origin|] == '/'
      && (forall c | c in realm[|origin|..] :: c != '?' && c != '#')
      && 0 < |service| <= 256
      && forall c | c in service ::
          'a' <= c <= 'z' || 'A' <= c <= 'Z' || '0' <= c <= '9' || c == '.' || c == '-' || c == '_'
  {
    if origin <= realm {
      var path := realm[|origin|..];
      assert forall c | c in path :: c in realm;
      assert path != "" ==> path[0] == realm[|origin|];
    }
  }

  lemma ChooseFirst(value: string, more: seq<string>, origin: string)
    ensures Choose([value], origin) == if Readable(value) then OfferOf(value, origin) else None
    ensures Choose([value], origin).Some? ==> Choose([value] + more, origin) == Choose([value], origin)
  {
    hide OfferOf, Readable;
    assert [value][1..] == [] && ([value] + more)[1..] == more;
  }

  /** It is chosen exactly when its realm continues the registry's own origin with a plain path and its
      service is a plain name of at most 256 characters, whatever values come after it. */
  lemma OrdinaryChosenIff(scheme: string, realm: string, service: string, origin: string, more: seq<string>)
    requires SpellsBearer(scheme) && Quotable(realm) && Quotable(service)
    ensures var value := scheme + " realm=\"" + realm + "\",service=\"" + service + "\"";
      (Choose([value], origin) == Some(BearerChallenge(realm, service))) <==>
        && |value| <= 8192
        && (forall c | c in value :: c as int < 0x7F)
        && origin < realm && realm[|origin|] == '/'
        && (forall c | c in realm[|origin|..] :: c != '?' && c != '#')
        && 0 < |service| <= 256
        && forall c | c in service ::
            'a' <= c <= 'z' || 'A' <= c <= 'Z' || '0' <= c <= '9' || c == '.' || c == '-' || c == '_'
    ensures var value := scheme + " realm=\"" + realm + "\",service=\"" + service + "\"";
      Choose([value], origin).Some? ==> Choose([value] + more, origin) == Choose([value], origin)
  {
    hide BearerParameters, Quotable, Readable, Trusted, Choose;
    var value := scheme + " realm=\"" + realm + "\",service=\"" + service + "\"";
    OrdinaryParses(scheme, realm, service);
    ChooseFirst(value, more, origin);
    ValueReadable(scheme, realm, service);
    TrustTells(realm, service, origin);
    Words(scheme);
  }
}
