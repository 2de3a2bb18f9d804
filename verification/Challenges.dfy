/** Parsing of `WWW-Authenticate` values: the cursor parser and its meaning on suffixes. */
module Challenges {
  import opened Wrappers
  import opened Text
  import opened Paths

  predicate IsTokenChar(c: char) {
    IsAlphanumeric(c) || c in {'!', '#', '$', '%', '&', '\'', '*', '+', '-', '.', '^', '_', '`', '|', '~'}
  }

  predicate IsBlank(c: char) {
    c == ' ' || c == '\t'
  }

  predicate IsControl(c: char) {
    c as int < 0x20 || c as int == 0x7F
  }

  predicate IsBearer(scheme: string) {
    Lower(scheme) == "bearer"
  }

  // ---- The parser on what is left of the value ----

  function SkipBlanks(s: string): (rest: string)
    ensures |rest| <= |s|
  {
    if s != "" && IsBlank(s[0]) then SkipBlanks(s[1..]) else s
  }

  function SkipBlanksAndCommas(s: string): (rest: string)
    ensures |rest| <= |s|
    decreases |s|
  {
    var t := SkipBlanks(s);
    if t != "" && t[0] == ',' then SkipBlanksAndCommas(t[1..]) else t
  }

  function TokenLength(s: string): (n: nat)
    ensures n <= |s|
    ensures forall i | 0 <= i < n :: IsTokenChar(s[i])
    ensures n < |s| ==> !IsTokenChar(s[n])
  {
    if s != "" && IsTokenChar(s[0]) then 1 + TokenLength(s[1..]) else 0
  }

  /** A non-empty token and what follows it. */
  function ParseToken(s: string): (r: Option<(string, string)>)
    ensures r.Some? ==> r.value.0 + r.value.1 == s && r.value.0 != ""
  {
    var n := TokenLength(s);
    if n == 0 then None else Some((s[..n], s[n..]))
  }

  /** The inside of a quoted string, after its opening quote. */
  function ParseQuotedTail(s: string): (r: Option<(string, string)>)
    ensures r.Some? ==> |r.value.1| < |s|
  {
    if s == "" then None
    else if s[0] == '"' then Some(("", s[1..]))
    else if s[0] == '\\' then
      if |s| < 2 || IsControl(s[1]) then None else
        match ParseQuotedTail(s[2..])
        case None => None
        case Some((text, rest)) => Some(([s[1]] + text, rest))
    else if IsControl(s[0]) then None
    else
      match ParseQuotedTail(s[1..])
      case None => None
      case Some((text, rest)) => Some(([s[0]] + text, rest))
  }

  function ParseQuoted(s: string): (r: Option<(string, string)>)
    ensures r.Some? ==> |r.value.1| < |s|
  {
    if s == "" || s[0] != '"' then None else ParseQuotedTail(s[1..])
  }

  /** Skips to after the next comma outside quotes. */
  function SkipChallenge(s: string, quoted: bool, escaped: bool): (rest: string)
    ensures |rest| <= |s|
  {
    if s == "" then ""
    else if quoted then
      if escaped then SkipChallenge(s[1..], true, false)
      else if s[0] == '\\' then SkipChallenge(s[1..], true, true)
      else SkipChallenge(s[1..], s[0] != '"', false)
    else if s[0] == '"' then SkipChallenge(s[1..], true, escaped)
    else if s[0] == ',' then s[1..]
    else SkipChallenge(s[1..], false, escaped)
  }

  predicate Starts(s: string, c: char) {
    s != "" && s[0] == c
  }

  function ParseValue(s: string): (r: Option<(string, string)>)
    ensures r.Some? ==> |r.value.1| < |s|
  {
    if Starts(s, '"') then ParseQuoted(s) else ParseToken(s)
  }

  /** One `key = value`, with the blanks around it. */
  function ParseParameter(s: string): (r: Option<(string, string, string)>)
    ensures r.Some? ==> |r.value.2| < |s|
  {
    match ParseToken(SkipBlanks(s))
    case None => None
    case Some((key, afterKey)) =>
      var equals := SkipBlanks(afterKey);
      if !Starts(equals, '=') then None else
        match ParseValue(SkipBlanks(equals[1..]))
        case None => None
        case Some((value, rest)) => Some((key, value, SkipBlanks(rest)))
  }

  datatype Continuation = Stop | Continue | Malformed

  /** After a comma: another parameter, another challenge, or neither. */
  function LookAhead(s: string): Continuation {
    match ParseToken(SkipBlanks(s))
    case None => Malformed
    case Some((_, rest)) => if Starts(SkipBlanks(rest), '=') then Continue else Stop
  }

  function ParseParameters(s: string, parameters: map<string, string>): Option<map<string, string>>
    decreases |s|
  {
    match ParseParameter(s)
    case None => None
    case Some((key, value, rest)) =>
      if Lower(key) in parameters then None else
        var more := parameters[Lower(key) := value];
        if !Starts(rest, ',') then Some(more)
        else
          match LookAhead(rest[1..])
          case Malformed => None
          case Stop => Some(more)
          case Continue => ParseParameters(rest[1..], more)
  }

  /** `bearer_parameters`. */
  function BearerParameters(s: string): Option<map<string, string>>
    decreases |s|
  {
    if s == "" then None else
      match ParseToken(SkipBlanksAndCommas(s))
      case None => None
      case Some((scheme, rest)) =>
        if IsBearer(scheme) then ParseParameters(SkipBlanks(rest), map[])
        else BearerParameters(SkipChallenge(SkipBlanks(rest), false, false))
  }

  // ---- The parser as it runs: loops that advance a cursor ----

  method SkipBlanksAt(s: string, start: nat) returns (cursor: nat)
    requires start <= |s|
    ensures start <= cursor <= |s| && s[cursor..] == SkipBlanks(s[start..])
  {
    cursor := start;
    while cursor < |s| && IsBlank(s[cursor])
      invariant start <= cursor <= |s|
      invariant SkipBlanks(s[cursor..]) == SkipBlanks(s[start..])
    {
      assert s[cursor..][1..] == s[cursor + 1..];
      cursor := cursor + 1;
    }
  }

  method SkipBlanksAndCommasAt(s: string, start: nat) returns (cursor: nat)
    requires start <= |s|
    ensures start <= cursor <= |s| && s[cursor..] == SkipBlanksAndCommas(s[start..])
  {
    cursor := SkipBlanksAt(s, start);
    SkipBlanksTwice(s[start..]);
    while cursor < |s| && s[cursor] == ','
      invariant start <= cursor <= |s|
      invariant SkipBlanks(s[cursor..]) == s[cursor..]
      invariant SkipBlanksAndCommas(s[cursor..]) == SkipBlanksAndCommas(s[start..])
      decreases |s| - cursor
    {
      assert s[cursor..][1..] == s[cursor + 1..];
      SkipBlanksTwice(s[cursor + 1..]);
      cursor := SkipBlanksAt(s, cursor + 1);
    }
  }

  lemma {:induction false} SkipBlanksTwice(s: string)
    ensures SkipBlanks(SkipBlanks(s)) == SkipBlanks(s)
  {
    if s != "" && IsBlank(s[0]) {
      SkipBlanksTwice(s[1..]);
    }
  }

  method ParseTokenAt(s: string, start: nat) returns (token: Option<string>, cursor: nat)
    requires start <= |s|
    ensures start <= cursor <= |s|
    ensures token.Some? ==> ParseToken(s[start..]) == Some((token.value, s[cursor..]))
    ensures token.None? ==> ParseToken(s[start..]) == None
  {
    cursor := start;
    while cursor < |s| && IsTokenChar(s[cursor])
      invariant start <= cursor <= |s|
      invariant TokenLength(s[start..]) == cursor - start + TokenLength(s[cursor..])
    {
      assert s[cursor..][1..] == s[cursor + 1..];
      cursor := cursor + 1;
    }
    assert s[start..][..cursor - start] == s[start..cursor];
    assert s[start..][cursor - start..] == s[cursor..];
    token := if start < cursor then Some(s[start..cursor]) else None;
  }

  method ParseQuotedStringAt(s: string, start: nat) returns (text: Option<string>, cursor: nat)
    requires start <= |s|
    ensures start <= cursor <= |s|
    ensures text.Some? ==> ParseQuoted(s[start..]) == Some((text.value, s[cursor..]))
    ensures text.None? ==> ParseQuoted(s[start..]) == None
  {
    cursor := start;
    if start == |s| || s[start] != '"' {
      return None, cursor;
    }
    cursor := start + 1;
    assert s[start..][1..] == s[cursor..];
    var result := "";
    ghost var whole := ParseQuotedTail(s[cursor..]);
    PrefixedByNothing(whole);
    while cursor < |s|
      invariant start < cursor <= |s|
      invariant whole == Prefixed(result, ParseQuotedTail(s[cursor..]))
    {
      assert s[cursor..][1..] == s[cursor + 1..];
      QuotedStep(s[cursor..], result);
      var c := s[cursor];
      cursor := cursor + 1;
      if c == '"' {
        return Some(result), cursor;
      } else if c == '\\' {
        if cursor == |s| || IsControl(s[cursor]) {
          return None, cursor;
        }
        assert s[cursor - 1..][2..] == s[cursor + 1..];
        result := result + [s[cursor]];
        cursor := cursor + 1;
      } else if IsControl(c) {
        return None, cursor;
      } else {
        result := result + [c];
      }
    }
    return None, cursor;
  }

  /** A parse result with text already read in front of it. */
  ghost function Prefixed(text: string, r: Option<(string, string)>): Option<(string, string)> {
    match r
    case None => None
    case Some((tail, rest)) => Some((text + tail, rest))
  }

  lemma PrefixedByNothing(r: Option<(string, string)>)
    ensures Prefixed("", r) == r
  {
    if r.Some? {
      assert "" + r.value.0 == r.value.0;
    }
  }

  lemma PrefixedMore(text: string, c: char, r: Option<(string, string)>)
    ensures Prefixed(text, match r case None => None case Some((tail, rest)) => Some(([c] + tail, rest)))
      == Prefixed(text + [c], r)
  {
    if r.Some? {
      assert text + ([c] + r.value.0) == text + [c] + r.value.0;
    }
  }

  /** What reading one more character of a quoted string does to the text read so far. */
  lemma QuotedStep(s: string, text: string)
    requires s != ""
    ensures s[0] == '"' ==> Prefixed(text, ParseQuotedTail(s)) == Some((text, s[1..]))
    ensures s[0] == '\\' && |s| >= 2 && !IsControl(s[1]) ==>
      Prefixed(text, ParseQuotedTail(s)) == Prefixed(text + [s[1]], ParseQuotedTail(s[2..]))
    ensures s[0] != '"' && s[0] != '\\' && !IsControl(s[0]) ==>
      Prefixed(text, ParseQuotedTail(s)) == Prefixed(text + [s[0]], ParseQuotedTail(s[1..]))
  {
    if s[0] == '"' {
      assert text + "" == text;
    } else if s[0] == '\\' {
      if |s| >= 2 {
        PrefixedMore(text, s[1], ParseQuotedTail(s[2..]));
      }
    } else {
      PrefixedMore(text, s[0], ParseQuotedTail(s[1..]));
    }
  }

  method SkipChallengeAt(s: string, start: nat) returns (cursor: nat)
    requires start <= |s|
    ensures start <= cursor <= |s| && s[cursor..] == SkipChallenge(s[start..], false, false)
  {
    cursor := start;
    var quoted, escaped := false, false;
    while cursor < |s|
      invariant start <= cursor <= |s|
      invariant SkipChallenge(s[cursor..], quoted, escaped) == SkipChallenge(s[start..], false, false)
    {
      assert s[cursor..][1..] == s[cursor + 1..];
      var c := s[cursor];
      cursor := cursor + 1;
      if quoted {
        if escaped {
          escaped := false;
        } else if c == '\\' {
          escaped := true;
        } else if c == '"' {
          quoted := false;
        }
      } else if c == '"' {
        quoted := true;
      } else if c == ',' {
        return;
      }
    }
  }

  method ParseParameterAt(s: string, start: nat) returns (parameter: Option<(string, string)>, cursor: nat)
    requires start <= |s|
    ensures start <= cursor <= |s|
    ensures parameter.Some? ==>
      start < cursor && ParseParameter(s[start..]) == Some((parameter.value.0, parameter.value.1, s[cursor..]))
    ensures parameter.None? ==> ParseParameter(s[start..]) == None
  {
    hide SkipBlanks, ParseToken, ParseQuoted;
    cursor := SkipBlanksAt(s, start);
    var key;
    key, cursor := ParseTokenAt(s, cursor);
    if key.None? {
      return None, cursor;
    }
    cursor := SkipBlanksAt(s, cursor);
    if cursor == |s| || s[cursor] != '=' {
      return None, cursor;
    }
    assert s[cursor..][1..] == s[cursor + 1..];
    cursor := SkipBlanksAt(s, cursor + 1);
    var value;
    if cursor < |s| && s[cursor] == '"' {
      value, cursor := ParseQuotedStringAt(s, cursor);
    } else {
      value, cursor := ParseTokenAt(s, cursor);
    }
    if value.None? {
      return None, cursor;
    }
    cursor := SkipBlanksAt(s, cursor);
    return Some((key.value, value.value)), cursor;
  }

  method ParseParametersAt(s: string, start: nat) returns (r: Option<map<string, string>>)
    requires start <= |s|
    ensures r == ParseParameters(s[start..], map[])
  {
    hide ParseParameter, LookAhead;
    var cursor := start;
    var parameters: map<string, string> := map[];
    while true
      invariant start <= cursor <= |s|
      invariant ParseParameters(s[cursor..], parameters) == ParseParameters(s[start..], map[])
      decreases |s| - cursor
    {
      var parameter, after := ParseParameterAt(s, cursor);
      if parameter.None? {
        return None;
      }
      var (key, value) := parameter.value;
      if Lower(key) in parameters {
        return None;
      }
      parameters := parameters[Lower(key) := value];
      if after == |s| || s[after] != ',' {
        return Some(parameters);
      }
      assert s[after..][1..] == s[after + 1..];
      var next := LookAheadAt(s, after + 1);
      if next == Malformed {
        return None;
      }
      if next == Stop {
        return Some(parameters);
      }
      cursor := after + 1;
    }
    return None;
  }

  method LookAheadAt(s: string, start: nat) returns (next: Continuation)
    requires start <= |s|
    ensures next == LookAhead(s[start..])
  {
    hide SkipBlanks, ParseToken;
    var ahead := SkipBlanksAt(s, start);
    var token;
    token, ahead := ParseTokenAt(s, ahead);
    if token.None? {
      return Malformed;
    }
    ahead := SkipBlanksAt(s, ahead);
    return if ahead < |s| && s[ahead] == '=' then Continue else Stop;
  }

  method BearerParametersOf(s: string) returns (r: Option<map<string, string>>)
    ensures r == BearerParameters(s)
  {
    hide SkipBlanks, SkipBlanksAndCommas, ParseToken, SkipChallenge, ParseParameters, IsBearer;
    var cursor := 0;
    assert s[0..] == s;
    while cursor < |s|
      invariant 0 <= cursor <= |s|
      invariant BearerParameters(s[cursor..]) == BearerParameters(s)
      decreases |s| - cursor
    {
      var before := cursor;
      cursor := SkipBlanksAndCommasAt(s, cursor);
      var scheme;
      scheme, cursor := ParseTokenAt(s, cursor);
      if scheme.None? {
        return None;
      }
      cursor := SkipBlanksAt(s, cursor);
      if IsBearer(scheme.value) {
        r := ParseParametersAt(s, cursor);
        return;
      }
      cursor := SkipChallengeAt(s, cursor);
    }
    return None;
  }
}
