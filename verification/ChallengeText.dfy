/** The language of the challenge parser: it accepts exactly the texts that spell a Bearer challenge
    after other challenges, and returns exactly their parameters. */
module ChallengeText {
  import opened Wrappers
  import opened Text
  import opened Challenges

  // ---- Spellings ----

  /** A character of a quoted string, written plain or after a backslash. */
  datatype Piece = Piece(c: char, escaped: bool)

  function PrintPiece(piece: Piece): string {
    if piece.escaped then ['\\', piece.c] else [piece.c]
  }

  function PrintPieces(pieces: seq<Piece>): string {
    if pieces == [] then "" else PrintPiece(pieces[0]) + PrintPieces(pieces[1..])
  }

  function TextOf(pieces: seq<Piece>): string {
    seq(|pieces|, i requires 0 <= i < |pieces| => pieces[i].c)
  }

  predicate Delimited(piece: Piece) {
    piece.escaped || (piece.c != '"' && piece.c != '\\')
  }

  predicate ValidPieces(pieces: seq<Piece>) {
    forall p | p in pieces :: Delimited(p) && !IsControl(p.c)
  }

  predicate IsToken(s: string) {
    s != "" && forall c | c in s :: IsTokenChar(c)
  }

  predicate IsBlanks(s: string) {
    forall c | c in s :: IsBlank(c)
  }

  datatype ValueText = Bare(token: string) | Quoted(pieces: seq<Piece>)

  function PrintValue(value: ValueText): string {
    match value
    case Bare(token) => token
    case Quoted(pieces) => "\"" + (PrintPieces(pieces) + "\"")
  }

  function ValueOf(value: ValueText): string {
    match value
    case Bare(token) => token
    case Quoted(pieces) => TextOf(pieces)
  }

  predicate ValidValue(value: ValueText) {
    match value
    case Bare(token) => IsToken(token)
    case Quoted(pieces) => ValidPieces(pieces)
  }

  /** A parameter with the blanks a writer may put around its parts. */
  datatype Parameter = Parameter(
    before: string, key: string, beforeEquals: string, afterEquals: string, value: ValueText, after: string)

  function PrintParameter(p: Parameter): string {
    p.before + (p.key + (p.beforeEquals + ("=" + (p.afterEquals + (PrintValue(p.value) + p.after)))))
  }

  predicate ValidParameter(p: Parameter) {
    && IsBlanks(p.before) && IsBlanks(p.beforeEquals) && IsBlanks(p.afterEquals) && IsBlanks(p.after)
    && IsToken(p.key) && ValidValue(p.value)
  }

  /** The text after a parameter cannot be read as a part of it. */
  predicate Follows(p: Parameter, rest: string) {
    rest == "" || (!IsBlank(rest[0]) && (p.value.Bare? && p.after == "" ==> !IsTokenChar(rest[0])))
  }

  /** A word that is no parameter name: no equals sign comes after it. */
  datatype Word = Word(before: string, name: string, after: string, rest: string)

  function PrintWord(w: Word): string {
    w.before + (w.name + (w.after + w.rest))
  }

  predicate ValidWord(w: Word) {
    && IsBlanks(w.before) && IsToken(w.name) && IsBlanks(w.after)
    && (w.rest != "" ==>
      !IsBlank(w.rest[0]) && w.rest[0] != '=' && (w.after == "" ==> !IsTokenChar(w.rest[0])))
  }

  /** The text after the last parameter does not continue the list: it begins with no comma, or with
      a comma and a word. */
  ghost predicate Closes(suffix: string) {
    Starts(suffix, ',') ==> exists w :: ValidWord(w) && suffix == "," + PrintWord(w)
  }

  function PrintParameters(ps: seq<Parameter>): string
    requires ps != []
  {
    if |ps| == 1 then PrintParameter(ps[0]) else PrintParameter(ps[0]) + ("," + PrintParameters(ps[1..]))
  }

  predicate ValidParameters(ps: seq<Parameter>) {
    ps != [] && forall p | p in ps :: ValidParameter(p)
  }

  // ---- Blanks, tokens and quoted strings ----

  lemma {:induction false} SkipBlanksPast(blanks: string, rest: string)
    requires IsBlanks(blanks) && (rest == "" || !IsBlank(rest[0]))
    ensures SkipBlanks(blanks + rest) == rest
  {
    if blanks == "" {
      assert blanks + rest == rest;
    } else {
      assert blanks[0] in blanks && forall c | c in blanks[1..] :: c in blanks;
      assert (blanks + rest)[1..] == blanks[1..] + rest;
      SkipBlanksPast(blanks[1..], rest);
    }
  }

  lemma {:induction false} TokenLengthPast(token: string, rest: string)
    requires (forall c | c in token :: IsTokenChar(c)) && (rest == "" || !IsTokenChar(rest[0]))
    ensures TokenLength(token + rest) == |token|
  {
    if token == "" {
      assert token + rest == rest;
    } else {
      assert token[0] in token && forall c | c in token[1..] :: c in token;
      assert (token + rest)[1..] == token[1..] + rest;
      TokenLengthPast(token[1..], rest);
    }
  }

  lemma TokenPast(token: string, rest: string)
    requires IsToken(token) && (rest == "" || !IsTokenChar(rest[0]))
    ensures ParseToken(token + rest) == Some((token, rest))
  {
    TokenLengthPast(token, rest);
    assert (token + rest)[..|token|] == token && (token + rest)[|token|..] == rest;
  }

  lemma {:induction false} QuotedPast(pieces: seq<Piece>, rest: string)
    requires ValidPieces(pieces)
    ensures ParseQuotedTail(PrintPieces(pieces) + ("\"" + rest)) == Some((TextOf(pieces), rest))
  {
    hide ParseQuotedTail, Delimited, IsControl, PrintPiece;
    var closing := "\"" + rest;
    if pieces == [] {
      assert PrintPieces(pieces) + closing == closing;
      assert TextOf(pieces) == "";
      QuoteEnds(rest);
    } else {
      assert pieces[0] in pieces && forall q | q in pieces[1..] :: q in pieces;
      QuotedPast(pieces[1..], rest);
      Associate(PrintPiece(pieces[0]), PrintPieces(pieces[1..]), closing);
      PiecePast(pieces[0], PrintPieces(pieces[1..]) + closing);
      assert TextOf(pieces) == [pieces[0].c] + TextOf(pieces[1..]);
    }
  }

  lemma QuoteEnds(rest: string)
    ensures ParseQuotedTail("\"" + rest) == Some(("", rest))
  {
    assert ("\"" + rest)[1..] == rest;
  }

  lemma PiecePast(p: Piece, more: string)
    requires Delimited(p) && !IsControl(p.c) && ParseQuotedTail(more).Some?
    ensures ParseQuotedTail(PrintPiece(p) + more) ==
      Some(([p.c] + ParseQuotedTail(more).value.0, ParseQuotedTail(more).value.1))
  {
    var s := PrintPiece(p) + more;
    if p.escaped {
      assert s[2..] == more;
    } else {
      assert s[1..] == more;
    }
  }

  lemma ValuePast(value: ValueText, rest: string)
    requires ValidValue(value) && (value.Bare? ==> rest == "" || !IsTokenChar(rest[0]))
    ensures ParseValue(PrintValue(value) + rest) == Some((ValueOf(value), rest))
    ensures PrintValue(value) != "" && !IsBlank(PrintValue(value)[0])
  {
    hide PrintPieces, ParseQuotedTail, TextOf, ParseToken;
    match value
    case Bare(token) =>
      assert token[0] in token;
      assert (token + rest)[0] == token[0];
      TokenPast(token, rest);
    case Quoted(pieces) =>
      QuotedPast(pieces, rest);
      var s := PrintValue(value) + rest;
      assert s[1..] == PrintPieces(pieces) + ("\"" + rest);
  }

  // ---- One parameter ----

  /** After a value come blanks and then a text that follows. */
  lemma AfterValue(p: Parameter, rest: string)
    requires ValidParameter(p) && Follows(p, rest)
    ensures SkipBlanks(p.after + rest) == rest
    ensures p.value.Bare? ==> p.after + rest == "" || !IsTokenChar((p.after + rest)[0])
  {
    SkipBlanksPast(p.after, rest);
    if p.after != "" {
      assert p.after[0] in p.after;
    }
  }

  lemma AfterKey(p: Parameter, tail: string)
    requires ValidParameter(p)
    ensures SkipBlanks(p.beforeEquals + ("=" + tail)) == "=" + tail
    ensures !IsTokenChar((p.beforeEquals + ("=" + tail))[0])
  {
    SkipBlanksPast(p.beforeEquals, "=" + tail);
    if p.beforeEquals != "" {
      assert p.beforeEquals[0] in p.beforeEquals;
    }
  }

  lemma KeyFirst(p: Parameter, tail: string)
    requires ValidParameter(p)
    ensures SkipBlanks(p.before + (p.key + tail)) == p.key + tail
  {
    assert p.key[0] in p.key;
    assert (p.key + tail)[0] == p.key[0];
    SkipBlanksPast(p.before, p.key + tail);
  }

  /** The text of a parameter cut after its equals sign. */
  function ValuePart(p: Parameter, rest: string): string {
    p.afterEquals + (PrintValue(p.value) + (p.after + rest))
  }

  lemma ParameterParts(p: Parameter, rest: string)
    ensures PrintParameter(p) + rest == p.before + (p.key + (p.beforeEquals + ("=" + ValuePart(p, rest))))
  {
    hide PrintValue;
    var v := PrintValue(p.value) + p.after;
    assert (p.afterEquals + v) + rest == p.afterEquals + (v + rest);
    assert v + rest == PrintValue(p.value) + (p.after + rest);
    Associate("=", p.afterEquals + v, rest);
    Associate(p.beforeEquals, "=" + (p.afterEquals + v), rest);
    Associate(p.key, p.beforeEquals + ("=" + (p.afterEquals + v)), rest);
    Associate(p.before, p.key + (p.beforeEquals + ("=" + (p.afterEquals + v))), rest);
  }

  lemma Associate(a: string, b: string, c: string)
    ensures (a + b) + c == a + (b + c)
  {
  }

  lemma ParameterPast(p: Parameter, rest: string)
    requires ValidParameter(p) && Follows(p, rest)
    ensures ParseParameter(PrintParameter(p) + rest) == Some((p.key, ValueOf(p.value), rest))
  {
    hide ValidParameter, PrintParameter, PrintValue, ValueOf, ParseToken, ParseValue, SkipBlanks, ValuePart, Follows;
    ParameterParts(p, rest);
    var tail := p.beforeEquals + ("=" + ValuePart(p, rest));
    KeyFirst(p, tail);
    AfterKey(p, ValuePart(p, rest));
    KeyIsToken(p);
    TokenPast(p.key, tail);
    assert ("=" + ValuePart(p, rest))[1..] == ValuePart(p, rest);
    ValueParsed(p, rest);
    AfterValue(p, rest);
  }

  lemma KeyIsToken(p: Parameter)
    requires ValidParameter(p)
    ensures IsToken(p.key)
  {
  }

  lemma ValueParsed(p: Parameter, rest: string)
    requires ValidParameter(p) && Follows(p, rest)
    ensures ParseValue(SkipBlanks(ValuePart(p, rest))) == Some((ValueOf(p.value), p.after + rest))
  {
    hide PrintValue, ValueOf, ParseValue, SkipBlanks, Follows;
    AfterValue(p, rest);
    ValuePast(p.value, p.after + rest);
    var v := PrintValue(p.value) + (p.after + rest);
    assert v[0] == PrintValue(p.value)[0];
    SkipBlanksPast(p.afterEquals, v);
  }

  lemma ParameterContinues(p: Parameter, rest: string)
    requires ValidParameter(p)
    ensures LookAhead(PrintParameter(p) + rest) == Continue
  {
    hide ValidParameter, PrintParameter, ParseToken, SkipBlanks, ValuePart;
    ParameterParts(p, rest);
    var tail := p.beforeEquals + ("=" + ValuePart(p, rest));
    KeyFirst(p, tail);
    AfterKey(p, ValuePart(p, rest));
    KeyIsToken(p);
    TokenPast(p.key, tail);
  }

  // ---- The end of a list ----

  lemma WordStops(w: Word)
    requires ValidWord(w)
    ensures LookAhead(PrintWord(w)) == Stop
  {
    hide SkipBlanks, ParseToken;
    var tail := w.after + w.rest;
    assert w.name[0] in w.name && (w.name + tail)[0] == w.name[0];
    SkipBlanksPast(w.before, w.name + tail);
    assert w.after != "" ==> w.after[0] in w.after && tail[0] == w.after[0];
    assert w.after == "" ==> tail == w.rest;
    TokenPast(w.name, tail);
    SkipBlanksPast(w.after, w.rest);
  }

  lemma WordOf(s: string) returns (w: Word)
    requires LookAhead(s) == Stop
    ensures ValidWord(w) && PrintWord(w) == s
  {
    hide SkipBlanks, ParseToken, IsBlanks, IsToken, IsBlank, IsTokenChar;
    var before := BlanksOf(s);
    TokenOf(SkipBlanks(s));
    var (name, rest) := ParseToken(SkipBlanks(s)).value;
    var after := BlanksOf(rest);
    w := Word(before, name, after, SkipBlanks(rest));
    assert after == "" ==> rest == SkipBlanks(rest) by {
      assert "" + SkipBlanks(rest) == SkipBlanks(rest);
    }
  }

  lemma ClosesIff(suffix: string)
    ensures Closes(suffix) <==> (Starts(suffix, ',') ==> LookAhead(suffix[1..]) == Stop)
  {
    hide LookAhead, ValidWord, PrintWord;
    if Starts(suffix, ',') && LookAhead(suffix[1..]) == Stop {
      var w := WordOf(suffix[1..]);
      assert suffix == "," + suffix[1..];
    }
    forall w | ValidWord(w) && suffix == "," + PrintWord(w) ensures LookAhead(suffix[1..]) == Stop {
      WordStops(w);
      assert suffix[1..] == PrintWord(w);
    }
  }

  // ---- A list of parameters ----

  /** The parameters by lower-cased name, unless two have the same. */
  function Collect(ps: seq<Parameter>, parameters: map<string, string>): Option<map<string, string>> {
    if ps == [] then Some(parameters)
    else if Lower(ps[0].key) in parameters then None
    else Collect(ps[1..], parameters[Lower(ps[0].key) := ValueOf(ps[0].value)])
  }

  lemma {:induction false} ParametersPast(ps: seq<Parameter>, suffix: string, parameters: map<string, string>)
    requires ValidParameters(ps) && Closes(suffix) && Follows(ps[|ps| - 1], suffix)
    ensures ParseParameters(PrintParameters(ps) + suffix, parameters) == Collect(ps, parameters)
  {
    hide ValidParameter, PrintParameter, PrintParameters, ParseParameters, ParseParameter, LookAhead, Lower, ValueOf,
      Follows, Closes;
    var p := ps[0];
    assert p in ps;
    var more := parameters[Lower(p.key) := ValueOf(p.value)];
    if |ps| == 1 {
      assert Collect(ps[1..], more) == Some(more);
      LastParameter(ps, suffix, parameters);
    } else {
      assert ps[1] in ps && forall q | q in ps[1..] :: q in ps;
      NextParameter(ps, suffix, parameters);
      if Lower(p.key) !in parameters {
        ParametersPast(ps[1..], suffix, more);
      }
    }
  }

  lemma LastParameter(ps: seq<Parameter>, suffix: string, parameters: map<string, string>)
    requires |ps| == 1 && ValidParameter(ps[0]) && Closes(suffix) && Follows(ps[0], suffix)
    ensures var p := ps[0];
      ParseParameters(PrintParameters(ps) + suffix, parameters) ==
        if Lower(p.key) in parameters then None else Some(parameters[Lower(p.key) := ValueOf(p.value)])
  {
    hide ValidParameter, PrintParameter, ParseParameter, LookAhead, Lower, ValueOf, Follows, Closes;
    ClosesIff(suffix);
    ParameterPast(ps[0], suffix);
  }

  lemma NextParameter(ps: seq<Parameter>, suffix: string, parameters: map<string, string>)
    requires |ps| > 1 && ValidParameter(ps[0]) && ValidParameter(ps[1])
    ensures var p := ps[0];
      ParseParameters(PrintParameters(ps) + suffix, parameters) ==
        if Lower(p.key) in parameters then None
        else ParseParameters(PrintParameters(ps[1..]) + suffix, parameters[Lower(p.key) := ValueOf(p.value)])
  {
    hide ValidParameter, PrintParameter, ParseParameter, LookAhead, Lower, ValueOf, Follows;
    var more := PrintParameters(ps[1..]) + suffix;
    var rest := "," + more;
    Associate(",", PrintParameters(ps[1..]), suffix);
    Associate(PrintParameter(ps[0]), "," + PrintParameters(ps[1..]), suffix);
    assert rest[1..] == more;
    CommaFollows(ps[0], rest);
    ParameterPast(ps[0], rest);
    FirstContinues(ps[1..], suffix);
  }

  lemma FirstContinues(ps: seq<Parameter>, suffix: string)
    requires ps != [] && ValidParameter(ps[0])
    ensures LookAhead(PrintParameters(ps) + suffix) == Continue
  {
    hide ValidParameter, PrintParameter, LookAhead;
    if |ps| == 1 {
      ParameterContinues(ps[0], suffix);
    } else {
      var rest := "," + PrintParameters(ps[1..]);
      Associate(PrintParameter(ps[0]), rest, suffix);
      ParameterContinues(ps[0], rest + suffix);
    }
  }

  ghost predicate DistinctKeys(ps: seq<Parameter>) {
    forall i, j | 0 <= i < j < |ps| :: Lower(ps[i].key) != Lower(ps[j].key)
  }

  /** Collecting succeeds exactly when no two names agree, and then holds every parameter. */
  lemma {:induction false} CollectIff(ps: seq<Parameter>, parameters: map<string, string>)
    ensures Collect(ps, parameters).Some? <==>
      DistinctKeys(ps) && forall p | p in ps :: Lower(p.key) !in parameters
    ensures Collect(ps, parameters).Some? ==>
      var m := Collect(ps, parameters).value;
      && (forall p | p in ps :: Lower(p.key) in m && m[Lower(p.key)] == ValueOf(p.value))
      && (forall k | k in parameters :: k in m && m[k] == parameters[k])
      && (forall k | k in m :: k in parameters || exists p :: p in ps && Lower(p.key) == k)
  {
    hide Lower, ValueOf, DistinctKeys;
    if ps == [] {
      NoKeys();
    } else {
      var p, rest := ps[0], ps[1..];
      assert ps == [p] + rest;
      assert p in ps && forall q | q in ps :: q == p || q in rest;
      assert forall q | q in rest :: q in ps;
      if Lower(p.key) !in parameters {
        CollectIff(rest, parameters[Lower(p.key) := ValueOf(p.value)]);
        DistinctCons(p, rest);
      }
    }
  }

  lemma NoKeys()
    ensures DistinctKeys([])
  {
  }

  lemma DistinctCons(p: Parameter, rest: seq<Parameter>)
    ensures DistinctKeys([p] + rest) <==> DistinctKeys(rest) && forall q | q in rest :: Lower(q.key) != Lower(p.key)
  {
    hide Lower;
    var ps := [p] + rest;
    if DistinctKeys(ps) {
      forall i, j | 0 <= i < j < |rest| ensures Lower(rest[i].key) != Lower(rest[j].key) {
        assert ps[i + 1] == rest[i] && ps[j + 1] == rest[j];
      }
      forall q | q in rest ensures Lower(q.key) != Lower(p.key) {
        var i :| 0 <= i < |rest| && rest[i] == q;
        assert ps[0] == p && ps[i + 1] == q;
      }
    }
  }

  // ---- Other challenges in front ----

  /** A stretch of another challenge: one character, or a quoted string with anything in it. */
  datatype Chunk = Plain(c: char) | QuotedChunk(pieces: seq<Piece>)

  function PrintChunk(chunk: Chunk): string {
    match chunk
    case Plain(c) => [c]
    case QuotedChunk(pieces) => "\"" + (PrintPieces(pieces) + "\"")
  }

  function PrintTail(tail: seq<Chunk>): string {
    if tail == [] then "" else PrintChunk(tail[0]) + PrintTail(tail[1..])
  }

  predicate ValidChunk(chunk: Chunk) {
    match chunk
    case Plain(c) => c != '"' && c != ','
    case QuotedChunk(pieces) => forall p | p in pieces :: Delimited(p)
  }

  predicate ValidTail(tail: seq<Chunk>) {
    forall chunk | chunk in tail :: ValidChunk(chunk)
  }

  /** A list element before the Bearer challenge: a scheme or parameter name that is not `bearer`
      in any case, and what follows it up to the next comma outside quotes. */
  datatype Element = Element(lead: string, name: string, tail: seq<Chunk>)

  predicate IsLead(s: string) {
    forall c | c in s :: IsBlank(c) || c == ','
  }

  predicate ValidElement(e: Element) {
    && IsLead(e.lead) && IsToken(e.name) && !IsBearer(e.name) && ValidTail(e.tail)
    && (PrintTail(e.tail) != "" ==> !IsTokenChar(PrintTail(e.tail)[0]))
  }

  function PrintElement(e: Element): string {
    e.lead + (e.name + (PrintTail(e.tail) + ","))
  }

  function PrintElements(es: seq<Element>): string {
    if es == [] then "" else PrintElement(es[0]) + PrintElements(es[1..])
  }

  /** A whole header value with a Bearer challenge in it. */
  datatype Challenge = Challenge(
    others: seq<Element>, lead: string, scheme: string, gap: string, parameters: seq<Parameter>, suffix: string)

  function PrintBearer(c: Challenge): string
    requires c.parameters != []
  {
    c.lead + (c.scheme + (c.gap + (PrintParameters(c.parameters) + c.suffix)))
  }

  function PrintChallenge(c: Challenge): string
    requires c.parameters != []
  {
    PrintElements(c.others) + PrintBearer(c)
  }

  /** Everything but the text after the last parameter is as it should be. */
  predicate OpenChallenge(c: Challenge) {
    && (forall e | e in c.others :: ValidElement(e))
    && IsLead(c.lead) && IsToken(c.scheme) && IsBearer(c.scheme)
    && IsBlanks(c.gap)
    && ValidParameters(c.parameters)
    && Separated(c.gap, c.parameters[0])
  }

  ghost predicate ValidChallenge(c: Challenge) {
    OpenChallenge(c) && Closes(c.suffix) && Follows(c.parameters[|c.parameters| - 1], c.suffix)
  }

  /** The scheme ends before the parameters begin; the blanks between them are in the gap. */
  predicate Separated(gap: string, first: Parameter) {
    first.before == "" && gap != ""
  }

  lemma {:induction false} SkipPieces(pieces: seq<Piece>, rest: string)
    requires forall p | p in pieces :: Delimited(p)
    ensures SkipChallenge(PrintPieces(pieces) + ("\"" + rest), true, false) == SkipChallenge(rest, false, false)
  {
    hide SkipChallenge, Delimited, PrintPiece;
    var closing := "\"" + rest;
    if pieces == [] {
      assert PrintPieces(pieces) + closing == closing;
      SkipQuote(rest);
    } else {
      assert pieces[0] in pieces && forall q | q in pieces[1..] :: q in pieces;
      SkipPieces(pieces[1..], rest);
      Associate(PrintPiece(pieces[0]), PrintPieces(pieces[1..]), closing);
      SkipPiece(pieces[0], PrintPieces(pieces[1..]) + closing);
    }
  }

  lemma SkipQuote(rest: string)
    ensures SkipChallenge("\"" + rest, true, false) == SkipChallenge(rest, false, false)
  {
    assert ("\"" + rest)[1..] == rest;
  }

  lemma SkipPiece(p: Piece, more: string)
    requires Delimited(p)
    ensures SkipChallenge(PrintPiece(p) + more, true, false) == SkipChallenge(more, true, false)
  {
    var s := PrintPiece(p) + more;
    if p.escaped {
      assert s[1..] == [p.c] + more && s[1..][1..] == more;
    } else {
      assert s[1..] == more;
    }
  }

  lemma {:induction false} SkipTail(tail: seq<Chunk>, rest: string)
    requires ValidTail(tail)
    ensures SkipChallenge(PrintTail(tail) + ("," + rest), false, false) == rest
  {
    hide PrintChunk, ValidChunk, SkipChallenge;
    var closing := "," + rest;
    if tail == [] {
      assert PrintTail(tail) + closing == closing;
      SkipComma(rest);
    } else {
      assert tail[0] in tail && forall c | c in tail[1..] :: c in tail;
      SkipTail(tail[1..], rest);
      Associate(PrintChunk(tail[0]), PrintTail(tail[1..]), closing);
      SkipChunk(tail[0], PrintTail(tail[1..]) + closing);
    }
  }

  lemma SkipComma(rest: string)
    ensures SkipChallenge("," + rest, false, false) == rest
  {
    assert ("," + rest)[1..] == rest;
  }

  lemma SkipChunk(chunk: Chunk, more: string)
    requires ValidChunk(chunk)
    ensures SkipChallenge(PrintChunk(chunk) + more, false, false) == SkipChallenge(more, false, false)
  {
    match chunk
    case Plain(c) => SkipPlain(c, more);
    case QuotedChunk(pieces) => SkipQuotedChunk(pieces, more);
  }

  lemma SkipPlain(c: char, more: string)
    requires c != '"' && c != ','
    ensures SkipChallenge([c] + more, false, false) == SkipChallenge(more, false, false)
  {
    assert ([c] + more)[1..] == more;
  }

  lemma SkipQuotedChunk(pieces: seq<Piece>, more: string)
    requires forall p | p in pieces :: Delimited(p)
    ensures SkipChallenge(PrintChunk(QuotedChunk(pieces)) + more, false, false) == SkipChallenge(more, false, false)
  {
    hide PrintPieces, SkipChallenge, Delimited;
    SkipPieces(pieces, more);
    Associate(PrintPieces(pieces), "\"", more);
    Associate("\"", PrintPieces(pieces) + "\"", more);
    OpenQuote(PrintPieces(pieces) + ("\"" + more));
  }

  lemma OpenQuote(rest: string)
    ensures SkipChallenge("\"" + rest, false, false) == SkipChallenge(rest, true, false)
  {
    assert ("\"" + rest)[1..] == rest;
  }

  lemma {:induction false} SkipIgnoresBlanks(s: string)
    ensures SkipChallenge(SkipBlanks(s), false, false) == SkipChallenge(s, false, false)
  {
    if s != "" && IsBlank(s[0]) {
      SkipIgnoresBlanks(s[1..]);
    }
  }

  lemma {:induction false} SkipLead(lead: string, rest: string)
    requires IsLead(lead) && rest != "" && !IsBlank(rest[0]) && rest[0] != ','
    ensures SkipBlanksAndCommas(lead + rest) == rest
    decreases |lead|
  {
    if lead == "" {
      assert lead + rest == rest;
    } else {
      var s := lead + rest;
      assert lead[0] in lead && forall c | c in lead[1..] :: c in lead;
      assert s[1..] == lead[1..] + rest;
      SkipLead(lead[1..], rest);
      if IsBlank(lead[0]) {
        LeadBlank(s);
      }
    }
  }

  lemma LeadBlank(s: string)
    requires s != "" && IsBlank(s[0])
    ensures SkipBlanksAndCommas(s) == SkipBlanksAndCommas(s[1..])
  {
  }

  lemma NameFirst(name: string, rest: string)
    requires IsToken(name)
    ensures name + rest != "" && !IsBlank((name + rest)[0]) && (name + rest)[0] != ','
  {
    assert name[0] in name;
  }

  lemma ElementSkipped(e: Element, rest: string)
    requires ValidElement(e)
    ensures BearerParameters(PrintElement(e) + rest) == BearerParameters(rest)
  {
    hide SkipBlanksAndCommas, ParseToken, IsToken, IsLead, ParseParameters, SkipChallenge, SkipBlanks, PrintTail,
      IsBearer, ValidTail;
    var tail := PrintTail(e.tail) + ("," + rest);
    ElementParts(e, rest);
    NameFirst(e.name, tail);
    SkipLead(e.lead, e.name + tail);
    assert tail[0] == if PrintTail(e.tail) == "" then ',' else PrintTail(e.tail)[0];
    TokenPast(e.name, tail);
    SkipIgnoresBlanks(tail);
    SkipTail(e.tail, rest);
  }

  lemma ElementParts(e: Element, rest: string)
    ensures PrintElement(e) + rest == e.lead + (e.name + (PrintTail(e.tail) + ("," + rest)))
    ensures PrintElement(e) + rest != ""
  {
    hide PrintTail;
    Associate(PrintTail(e.tail), ",", rest);
    Associate(e.name, PrintTail(e.tail) + ",", rest);
    Associate(e.lead, e.name + (PrintTail(e.tail) + ","), rest);
  }

  lemma {:induction false} ElementsSkipped(es: seq<Element>, rest: string)
    requires forall e | e in es :: ValidElement(e)
    ensures BearerParameters(PrintElements(es) + rest) == BearerParameters(rest)
  {
    hide ValidElement, BearerParameters, PrintElement;
    if es == [] {
      assert PrintElements(es) + rest == rest;
    } else {
      assert es[0] in es && forall e | e in es[1..] :: e in es;
      ElementsSkipped(es[1..], rest);
      Associate(PrintElement(es[0]), PrintElements(es[1..]), rest);
      ElementSkipped(es[0], PrintElements(es[1..]) + rest);
    }
  }

  lemma GapPast(gap: string, ps: seq<Parameter>, suffix: string)
    requires ValidParameters(ps) && IsBlanks(gap) && Separated(gap, ps[0])
    ensures var body := PrintParameters(ps) + suffix;
      SkipBlanks(gap + body) == body && !IsTokenChar((gap + body)[0])
  {
    hide PrintValue, ValidValue;
    var body := PrintParameters(ps) + suffix;
    var p := ps[0];
    assert p in ps && p.key[0] in p.key;
    assert PrintParameter(p)[0] == p.key[0];
    assert body[0] == p.key[0];
    SkipBlanksPast(gap, body);
    assert gap[0] in gap;
  }

  /** The parser gets to the parameters of the first Bearer challenge. */
  lemma ParametersReached(c: Challenge)
    requires OpenChallenge(c)
    ensures c.parameters != []
    ensures BearerParameters(PrintChallenge(c)) == ParseParameters(PrintParameters(c.parameters) + c.suffix, map[])
  {
    hide ValidElement, ParseToken, SkipBlanks, SkipBlanksAndCommas, ParseParameters, PrintParameters, IsToken, IsBearer,
      IsLead, IsBlanks, ValidParameters, Separated;
    ParametersNonEmpty(c);
    ElementsSkipped(c.others, PrintBearer(c));
    var body := PrintParameters(c.parameters) + c.suffix;
    NameFirst(c.scheme, c.gap + body);
    SkipLead(c.lead, c.scheme + (c.gap + body));
    GapPast(c.gap, c.parameters, c.suffix);
    GapNonEmpty(c.gap, c.parameters[0]);
    TokenPast(c.scheme, c.gap + body);
  }

  /** A header value that spells a Bearer challenge, after any other challenges with no scheme or
      parameter named bearer and before any text that does not continue its parameters, parses to
      its parameters with lower-cased names; a repeated name makes it unusable. */
  lemma ChallengeParses(c: Challenge)
    requires ValidChallenge(c)
    ensures c.parameters != []
    ensures BearerParameters(PrintChallenge(c)) == Collect(c.parameters, map[])
  {
    hide OpenChallenge, PrintChallenge, BearerParameters, ParseParameters, PrintParameters, Collect, Closes, Follows;
    ParametersReached(c);
    OpenParameters(c);
    ParametersPast(c.parameters, c.suffix, map[]);
  }

  lemma OpenParameters(c: Challenge)
    requires OpenChallenge(c)
    ensures ValidParameters(c.parameters)
  {
  }

  /** A comma after the last parameter that neither a parameter nor a challenge follows. */
  lemma {:induction false} DanglingComma(ps: seq<Parameter>, suffix: string, parameters: map<string, string>)
    requires ValidParameters(ps) && Starts(suffix, ',') && LookAhead(suffix[1..]) == Malformed
    ensures ParseParameters(PrintParameters(ps) + suffix, parameters) == None
  {
    hide ValidParameter, PrintParameter, PrintParameters, ParseParameters, LookAhead, Lower, ValueOf;
    var p := ps[0];
    assert p in ps;
    if |ps| == 1 {
      DanglingAfter(ps, suffix, parameters);
    } else {
      assert ps[1] in ps && forall q | q in ps[1..] :: q in ps;
      NextParameter(ps, suffix, parameters);
      if Lower(p.key) !in parameters {
        DanglingComma(ps[1..], suffix, parameters[Lower(p.key) := ValueOf(p.value)]);
      }
    }
  }

  lemma DanglingAfter(ps: seq<Parameter>, suffix: string, parameters: map<string, string>)
    requires |ps| == 1 && ValidParameter(ps[0]) && Starts(suffix, ',') && LookAhead(suffix[1..]) == Malformed
    ensures ParseParameters(PrintParameters(ps) + suffix, parameters) == None
  {
    hide ValidParameter, PrintParameter, ParseParameter, LookAhead, Lower, ValueOf, Follows;
    CommaFollows(ps[0], suffix);
    ParameterPast(ps[0], suffix);
  }

  lemma CommaFollows(p: Parameter, rest: string)
    requires Starts(rest, ',')
    ensures Follows(p, rest)
  {
  }

  /** An empty list element after a Bearer parameter, such as a trailing comma, makes the whole
      value unusable, although section 5.6.1 of RFC 9110 has recipients ignore it. */
  lemma EmptyElementUnusable(c: Challenge, blanks: string, more: string)
    requires OpenChallenge(c) && IsBlanks(blanks) && (more == "" || more[0] == ',')
    requires c.suffix == "," + (blanks + more)
    ensures c.parameters != []
    ensures BearerParameters(PrintChallenge(c)) == None
  {
    hide OpenChallenge, PrintChallenge, BearerParameters, ParseParameters, PrintParameters;
    ParametersReached(c);
    OpenParameters(c);
    assert c.suffix[1..] == blanks + more;
    SkipBlanksPast(blanks, more);
    assert LookAhead(blanks + more) == Malformed;
    DanglingComma(c.parameters, c.suffix, map[]);
  }

  /** One more character of a quoted string: a control character is refused, escaped or not. */
  lemma PieceParsed(p: Piece, more: string)
    requires Delimited(p)
    ensures IsControl(p.c) || ParseQuotedTail(more).None? ==> ParseQuotedTail(PrintPiece(p) + more).None?
  {
    var s := PrintPiece(p) + more;
    if p.escaped {
      assert s[2..] == more;
    } else {
      assert s[1..] == more;
    }
  }

  lemma {:induction false} ControlInQuotes(pieces: seq<Piece>, rest: string)
    requires (forall p | p in pieces :: Delimited(p)) && exists p :: p in pieces && IsControl(p.c)
    ensures ParseQuotedTail(PrintPieces(pieces) + ("\"" + rest)).None?
  {
    hide ParseQuotedTail, Delimited, IsControl, PrintPiece;
    var closing := "\"" + rest;
    var p :| p in pieces && IsControl(p.c);
    assert pieces[0] in pieces && forall q | q in pieces[1..] :: q in pieces;
    Associate(PrintPiece(pieces[0]), PrintPieces(pieces[1..]), closing);
    PieceParsed(pieces[0], PrintPieces(pieces[1..]) + closing);
    if p != pieces[0] {
      assert pieces == [pieces[0]] + pieces[1..];
      ControlInQuotes(pieces[1..], rest);
    }
  }

  /** A first parameter with a quoted value. */
  function QuotedParameter(key: string, pieces: seq<Piece>, rest: string): string {
    key + ("=" + ("\"" + (PrintPieces(pieces) + ("\"" + rest))))
  }

  lemma ControlParameter(key: string, pieces: seq<Piece>, rest: string)
    requires IsToken(key)
    requires (forall p | p in pieces :: Delimited(p)) && exists p :: p in pieces && IsControl(p.c)
    ensures ParseParameter(QuotedParameter(key, pieces, rest)).None?
    ensures var body := QuotedParameter(key, pieces, rest);
      body != "" && !IsBlank(body[0])
  {
    hide IsToken, IsTokenChar, ParseToken, ParseQuotedTail, PrintPieces, Delimited, IsControl;
    ControlInQuotes(pieces, rest);
    var quoted := "\"" + (PrintPieces(pieces) + ("\"" + rest));
    var equals := "=" + quoted;
    NameFirst(key, equals);
    EqualsEndsToken();
    TokenPast(key, equals);
    assert equals[1..] == quoted && quoted[1..] == PrintPieces(pieces) + ("\"" + rest);
  }

  lemma EqualsEndsToken()
    ensures !IsTokenChar('=')
  {
  }

  /** A control character in the first quoted value, a tab included, escaped or not, makes the whole
      header value unusable, although section 5.6.4 of RFC 9110 allows tabs in quoted strings. */
  lemma ControlUnusable(
    others: seq<Element>, lead: string, scheme: string, gap: string, key: string, pieces: seq<Piece>, rest: string)
    requires (forall e | e in others :: ValidElement(e)) && IsLead(lead) && IsToken(scheme) && IsBearer(scheme)
    requires IsBlanks(gap) && gap != "" && IsToken(key)
    requires forall p | p in pieces :: Delimited(p)
    requires exists p :: p in pieces && (p.c as int < 0x20 || p.c as int == 0x7F)
    ensures BearerParameters(PrintElements(others) +
      (lead + (scheme + (gap + QuotedParameter(key, pieces, rest))))) == None
  {
    hide ValidElement, ParseToken, SkipBlanks, SkipBlanksAndCommas, ParseParameter, QuotedParameter, IsToken, IsBearer,
      IsLead, Delimited, IsControl, PrintElements;
    var body := QuotedParameter(key, pieces, rest);
    ControlTells(pieces);
    ControlParameter(key, pieces, rest);
    ElementsSkipped(others, lead + (scheme + (gap + body)));
    NameFirst(scheme, gap + body);
    SkipLead(lead, scheme + (gap + body));
    GapEndsToken(gap, body);
    SkipBlanksPast(gap, body);
    TokenPast(scheme, gap + body);
  }

  lemma ControlTells(pieces: seq<Piece>)
    requires exists p :: p in pieces && (p.c as int < 0x20 || p.c as int == 0x7F)
    ensures exists p :: p in pieces && IsControl(p.c)
  {
    var p :| p in pieces && (p.c as int < 0x20 || p.c as int == 0x7F);
    assert IsControl(p.c);
  }

  lemma GapEndsToken(gap: string, body: string)
    requires IsBlanks(gap) && gap != ""
    ensures gap + body != "" && !IsTokenChar((gap + body)[0])
  {
    assert gap[0] in gap;
  }

  /** The tab of section 5.6.4, plain and escaped. */
  lemma TabUnusable(rest: string)
    ensures BearerParameters("Bearer " + ("a" + ("=" + ("\"" + ("\t" + ("\"" + rest)))))) == None
    ensures BearerParameters("Bearer " + ("a" + ("=" + ("\"" + ("\\\t" + ("\"" + rest)))))) == None
  {
    hide BearerParameters, IsLead;
    BearerTab(false, rest);
    BearerTab(true, rest);
  }

  lemma BearerTab(escaped: bool, rest: string)
    ensures BearerParameters("Bearer " +
      ("a" + ("=" + ("\"" + ((if escaped then "\\\t" else "\t") + ("\"" + rest)))))) == None
  {
    hide BearerParameters;
    var pieces := [Piece('\t', escaped)];
    assert pieces[0] in pieces && IsControl('\t');
    assert PrintPieces(pieces[1..]) == "";
    assert PrintPieces(pieces) == if escaped then "\\\t" else "\t";
    assert IsBearer("Bearer") && IsToken("Bearer") && IsToken("a") && IsBlanks(" ") && IsLead("");
    ControlUnusable([], "", "Bearer", " ", "a", pieces, rest);
    var body := QuotedParameter("a", pieces, rest);
    assert "" + ("" + ("Bearer" + (" " + body))) == "Bearer " + body;
  }

  lemma ParametersNonEmpty(c: Challenge)
    requires OpenChallenge(c)
    ensures c.parameters != []
  {
  }

  lemma GapNonEmpty(gap: string, first: Parameter)
    requires Separated(gap, first)
    ensures gap != ""
  {
  }

  // ---- From a parse back to a spelling ----

  lemma {:induction false} BlanksOf(s: string) returns (blanks: string)
    ensures IsBlanks(blanks) && s == blanks + SkipBlanks(s)
    ensures SkipBlanks(s) != "" ==> !IsBlank(SkipBlanks(s)[0])
  {
    if s != "" && IsBlank(s[0]) {
      var more := BlanksOf(s[1..]);
      blanks := [s[0]] + more;
      Associate([s[0]], more, SkipBlanks(s[1..]));
    } else {
      blanks := "";
      assert "" + s == s;
    }
  }

  lemma {:induction false} LeadOf(s: string) returns (lead: string)
    ensures IsLead(lead) && s == lead + SkipBlanksAndCommas(s)
    decreases |s|
  {
    var blanks := BlanksOf(s);
    var t := SkipBlanks(s);
    lead := blanks;
    if t != "" && t[0] == ',' {
      var more := LeadOf(t[1..]);
      lead := blanks + ([','] + more);
      assert t == [','] + t[1..];
      Associate([','], more, SkipBlanksAndCommas(s));
      Associate(blanks, [','] + more, SkipBlanksAndCommas(s));
    }
  }

  lemma TokenOf(s: string)
    requires ParseToken(s).Some?
    ensures IsToken(ParseToken(s).value.0) && s == ParseToken(s).value.0 + ParseToken(s).value.1
    ensures ParseToken(s).value.1 != "" ==> !IsTokenChar(ParseToken(s).value.1[0])
  {
  }

  lemma {:induction false} PiecesOf(s: string) returns (pieces: seq<Piece>)
    requires ParseQuotedTail(s).Some?
    ensures ValidPieces(pieces) && TextOf(pieces) == ParseQuotedTail(s).value.0
    ensures s == PrintPieces(pieces) + ("\"" + ParseQuotedTail(s).value.1)
    decreases |s|
  {
    var rest := ParseQuotedTail(s).value.1;
    if s[0] == '"' {
      pieces := [];
      assert s == "" + ("\"" + s[1..]);
    } else {
      var escaped := s[0] == '\\';
      var n := if escaped then 2 else 1;
      var more := PiecesOf(s[n..]);
      var p := Piece(s[n - 1], escaped);
      pieces := [p] + more;
      assert pieces[1..] == more;
      assert TextOf(pieces) == [p.c] + TextOf(more);
      assert s == s[..n] + s[n..];
      assert s[..n] == if escaped then ['\\', p.c] else [p.c];
      Associate(s[..n], PrintPieces(more), "\"" + rest);
    }
  }

  lemma ValueTextOf(s: string) returns (value: ValueText)
    requires ParseValue(s).Some?
    ensures ValidValue(value) && ValueOf(value) == ParseValue(s).value.0
    ensures s == PrintValue(value) + ParseValue(s).value.1
    ensures value.Bare? && ParseValue(s).value.1 != "" ==> !IsTokenChar(ParseValue(s).value.1[0])
  {
    hide ParseToken, ParseQuotedTail, PrintPieces, TextOf, ValidPieces;
    var rest := ParseValue(s).value.1;
    if Starts(s, '"') {
      var pieces := PiecesOf(s[1..]);
      value := Quoted(pieces);
      assert s == "\"" + s[1..];
      Associate(PrintPieces(pieces), "\"", rest);
      Associate("\"", PrintPieces(pieces) + "\"", rest);
    } else {
      TokenOf(s);
      value := Bare(ParseToken(s).value.0);
    }
  }

  lemma ParameterOf(s: string) returns (p: Parameter)
    requires ParseParameter(s).Some?
    ensures ValidParameter(p) && Follows(p, ParseParameter(s).value.2)
    ensures p.key == ParseParameter(s).value.0 && ValueOf(p.value) == ParseParameter(s).value.1
    ensures s == PrintParameter(p) + ParseParameter(s).value.2
  {
    hide ParseToken, ParseValue, SkipBlanks, PrintValue, ValueOf, ValidValue, PrintParameter, IsToken, IsBlanks,
      IsTokenChar, IsBlank;
    var before := BlanksOf(s);
    TokenOf(SkipBlanks(s));
    var (key, afterKey) := ParseToken(SkipBlanks(s)).value;
    var beforeEquals := BlanksOf(afterKey);
    var equals := SkipBlanks(afterKey);
    assert equals == "=" + equals[1..];
    var afterEquals := BlanksOf(equals[1..]);
    var value := ValueTextOf(SkipBlanks(equals[1..]));
    var afterValue := ParseValue(SkipBlanks(equals[1..])).value.1;
    var after := BlanksOf(afterValue);
    p := Parameter(before, key, beforeEquals, afterEquals, value, after);
    ParameterParts(p, SkipBlanks(afterValue));
    assert after == "" ==> afterValue == SkipBlanks(afterValue) by {
      assert "" + SkipBlanks(afterValue) == SkipBlanks(afterValue);
    }
  }

  lemma {:induction false} ParametersOf(s: string, parameters: map<string, string>)
    returns (ps: seq<Parameter>, suffix: string)
    requires ParseParameters(s, parameters).Some?
    ensures ValidParameters(ps) && Closes(suffix) && Follows(ps[|ps| - 1], suffix)
    ensures s == PrintParameters(ps) + suffix
    ensures Collect(ps, parameters) == ParseParameters(s, parameters)
    decreases |s|
  {
    hide ValidParameter, PrintParameter, ParseParameter, LookAhead, Lower, ValueOf, Follows, Closes;
    var p := ParameterOf(s);
    var (key, value, rest) := ParseParameter(s).value;
    var more := parameters[Lower(key) := value];
    if Starts(rest, ',') && LookAhead(rest[1..]) == Continue {
      ps, suffix := ParametersOf(rest[1..], more);
      var tail := ps;
      ps := [p] + tail;
      assert ps[1..] == tail && ps[|ps| - 1] == tail[|tail| - 1];
      assert rest == "," + rest[1..];
      Associate(",", PrintParameters(tail), suffix);
      Associate(PrintParameter(p), "," + PrintParameters(tail), suffix);
    } else {
      ps, suffix := [p], rest;
      ClosesIff(rest);
      assert Collect(ps[1..], more) == Some(more);
    }
  }

  lemma {:induction false} QuotedPartOf(s: string) returns (pieces: seq<Piece>, rest: string)
    requires SkipChallenge(s, true, false) != ""
    ensures (forall p | p in pieces :: Delimited(p)) && |rest| < |s|
    ensures s == PrintPieces(pieces) + ("\"" + rest)
    ensures SkipChallenge(rest, false, false) == SkipChallenge(s, true, false)
    decreases |s|
  {
    if s[0] == '"' {
      pieces, rest := [], s[1..];
      assert s == "" + ("\"" + s[1..]);
    } else {
      var escaped := s[0] == '\\';
      assert escaped ==> s[1..] != "" && s[1..][1..] == s[2..];
      var n := if escaped then 2 else 1;
      var more;
      more, rest := QuotedPartOf(s[n..]);
      var p := Piece(s[n - 1], escaped);
      pieces := [p] + more;
      assert pieces[1..] == more;
      assert s == s[..n] + s[n..];
      assert s[..n] == if escaped then ['\\', p.c] else [p.c];
      Associate(s[..n], PrintPieces(more), "\"" + rest);
    }
  }

  lemma {:induction false} TailOf(s: string) returns (tail: seq<Chunk>)
    requires SkipChallenge(s, false, false) != ""
    ensures ValidTail(tail) && s == PrintTail(tail) + ("," + SkipChallenge(s, false, false))
    decreases |s|
  {
    hide PrintPieces, Delimited;
    var final := "," + SkipChallenge(s, false, false);
    if s[0] == ',' {
      tail := [];
      assert s == "" + ("," + s[1..]);
    } else {
      var chunk, rest := ChunkOf(s);
      var more := TailOf(rest);
      tail := [chunk] + more;
      assert tail[1..] == more;
      Associate(PrintChunk(chunk), PrintTail(more), final);
    }
  }

  lemma ChunkOf(s: string) returns (chunk: Chunk, rest: string)
    requires SkipChallenge(s, false, false) != "" && s[0] != ','
    ensures ValidChunk(chunk) && |rest| < |s| && s == PrintChunk(chunk) + rest
    ensures SkipChallenge(rest, false, false) == SkipChallenge(s, false, false)
  {
    hide PrintPieces, Delimited;
    if s[0] == '"' {
      var pieces;
      pieces, rest := QuotedPartOf(s[1..]);
      chunk := QuotedChunk(pieces);
      assert s == "\"" + s[1..];
      Associate(PrintPieces(pieces), "\"", rest);
      Associate("\"", PrintPieces(pieces) + "\"", rest);
    } else {
      chunk, rest := Plain(s[0]), s[1..];
      assert s == [s[0]] + s[1..];
    }
  }

  /** Every usable header value is spelled by a challenge with the parameters it parses to. */
  lemma {:induction false} ParsedIsSpelled(s: string) returns (c: Challenge)
    requires BearerParameters(s).Some?
    ensures ValidChallenge(c) && PrintChallenge(c) == s
    ensures Collect(c.parameters, map[]) == BearerParameters(s)
    decreases |s|
  {
    hide SkipBlanks, SkipBlanksAndCommas, ParseToken, SkipChallenge, ParseParameters, IsBearer, ValidElement, IsLead,
      IsToken, IsBlanks, ValidParameters, Closes, Follows, Separated, PrintElement, PrintParameters, Collect;
    var lead := LeadOf(s);
    var t := SkipBlanksAndCommas(s);
    TokenOf(t);
    var (scheme, rest) := ParseToken(t).value;
    if IsBearer(scheme) {
      c := BearerOf(lead, scheme, rest);
    } else {
      SkipIgnoresBlanks(rest);
      var after := SkipChallenge(rest, false, false);
      var more := ParsedIsSpelled(after);
      var e := ElementOf(lead, scheme, rest);
      c := more.(others := [e] + more.others);
      assert c.others[1..] == more.others;
      ParametersNonEmpty(more);
      Associate(PrintElement(e), PrintElements(more.others), PrintBearer(more));
    }
  }

  lemma BearerOf(lead: string, scheme: string, rest: string) returns (c: Challenge)
    requires IsLead(lead) && IsToken(scheme) && IsBearer(scheme) && (rest != "" ==> !IsTokenChar(rest[0]))
    requires ParseParameters(SkipBlanks(rest), map[]).Some?
    ensures ValidChallenge(c) && PrintChallenge(c) == lead + (scheme + rest)
    ensures Collect(c.parameters, map[]) == ParseParameters(SkipBlanks(rest), map[])
  {
    hide SkipBlanks, ParseParameters, IsBearer, IsLead, IsToken, IsBlanks, ValidParameters, Closes, Follows, Separated,
      PrintParameters, Collect;
    var gap := BlanksOf(rest);
    var ps, suffix := ParametersOf(SkipBlanks(rest), map[]);
    FirstKey(ps, suffix, gap);
    c := Challenge([], lead, scheme, gap, ps, suffix);
    assert "" + PrintBearer(c) == PrintBearer(c);
  }

  /** Between the scheme and the first name there are blanks, and all of them are in the gap. */
  lemma FirstKey(ps: seq<Parameter>, suffix: string, gap: string)
    requires ValidParameters(ps)
    requires var body := PrintParameters(ps) + suffix;
      (body != "" ==> !IsBlank(body[0])) && (gap + body != "" ==> !IsTokenChar((gap + body)[0]))
    ensures ps != [] && Separated(gap, ps[0])
  {
    hide PrintValue, ValidValue;
    var p := ps[0];
    assert p in ps;
    var body := PrintParameters(ps) + suffix;
    assert PrintParameter(p) != "" && body[0] == PrintParameter(p)[0];
    assert p.key[0] in p.key && body[0] == p.key[0];
    assert gap == "" ==> gap + body == body;
  }

  lemma ElementOf(lead: string, name: string, rest: string) returns (e: Element)
    requires IsLead(lead) && IsToken(name) && !IsBearer(name) && (rest != "" ==> !IsTokenChar(rest[0]))
    requires SkipChallenge(rest, false, false) != ""
    ensures ValidElement(e)
    ensures lead + (name + rest) == PrintElement(e) + SkipChallenge(rest, false, false)
  {
    hide IsBearer, IsLead, IsToken, IsTokenChar, SkipChallenge, PrintTail, ValidTail, PrintElement;
    var tail := TailOf(rest);
    e := Element(lead, name, tail);
    var after := SkipChallenge(rest, false, false);
    ElementParts(e, after);
    assert PrintTail(tail) != "" ==> rest[0] == PrintTail(tail)[0];
  }

  ghost predicate Spells(c: Challenge, s: string) {
    ValidChallenge(c) && PrintChallenge(c) == s
  }

  /** A header value is usable exactly when it spells a Bearer challenge without a repeated name,
      and then every spelling of it has exactly the parameters returned. */
  lemma BearerParametersIff(s: string)
    ensures BearerParameters(s).Some? <==> exists c :: Spells(c, s) && DistinctKeys(c.parameters)
    ensures forall c | Spells(c, s) && DistinctKeys(c.parameters) :: HoldsExactly(BearerParameters(s), c.parameters)
  {
    hide ValidChallenge, PrintChallenge, BearerParameters, Collect, HoldsExactly;
    if BearerParameters(s).Some? {
      var c := ParsedIsSpelled(s);
      CollectIff(c.parameters, map[]);
      assert Spells(c, s);
    }
    forall c | Spells(c, s) && DistinctKeys(c.parameters)
      ensures HoldsExactly(BearerParameters(s), c.parameters) && BearerParameters(s).Some?
    {
      ChallengeParses(c);
      CollectedExactly(c.parameters);
    }
  }

  /** The names, lower-cased, and values of these parameters and no others. */
  ghost predicate HoldsExactly(r: Option<map<string, string>>, ps: seq<Parameter>) {
    && r.Some?
    && (forall p | p in ps :: Lower(p.key) in r.value && r.value[Lower(p.key)] == ValueOf(p.value))
    && (forall k | k in r.value :: exists p :: p in ps && Lower(p.key) == k)
  }

  lemma CollectedExactly(ps: seq<Parameter>)
    requires DistinctKeys(ps)
    ensures Collect(ps, map[]).Some? && HoldsExactly(Collect(ps, map[]), ps)
  {
    hide Lower, ValueOf, Collect;
    CollectIff(ps, map[]);
  }

  /** A repeated name makes the value unusable. */
  lemma RepeatedNameUnusable(c: Challenge)
    requires ValidChallenge(c) && !DistinctKeys(c.parameters)
    ensures BearerParameters(PrintChallenge(c)).None?
  {
    hide ValidChallenge, PrintChallenge, BearerParameters, Collect;
    ChallengeParses(c);
    CollectIff(c.parameters, map[]);
  }
}
