/** Repository names, their base64url locators, and the public route namespace. */
module Locators {
  import opened Wrappers
  import opened Ascii
  import opened Text
  import opened Digests

  const MAX_REPOSITORY_BYTES := 255
  const MAX_REPOSITORY_SEGMENTS := 32
  const MAX_LOCATOR_BYTES := 340
  const MAX_PROTOCOL_PATH_BYTES := 4096
  const MAX_PROTOCOL_PATH_SEGMENTS := 128

  datatype RouteError =
    | UnsupportedMethod
    | InvalidRoute
    | InvalidRepositoryLocator
    | InvalidRepository
    | UnsupportedProtocol
    | DisabledProtocol
    | InvalidProtocolPath

  // ---- Repository names ----

  predicate IsNameChar(c: char) {
    'a' <= c <= 'z' || '0' <= c <= '9'
  }

  predicate IsSeparator(c: char) {
    c in {'.', '_', '-'}
  }

  /** Lower-case letters and digits, with single separators strictly between them. */
  ghost predicate IsSegment(s: string) {
    && s != "" && IsNameChar(s[0]) && IsNameChar(s[|s| - 1])
    && (forall i | 0 <= i < |s| :: IsNameChar(s[i]) || IsSeparator(s[i]))
    && (forall i | 0 < i < |s| :: IsSeparator(s[i]) ==> !IsSeparator(s[i - 1]))
  }

  method IsRepositorySegment(segment: string) returns (ok: bool)
    ensures ok <==> IsSegment(segment)
  {
    if segment == "" || !IsNameChar(segment[0]) {
      return false;
    }
    var previousWasSeparator := false;
    var i := 1;
    while i < |segment|
      invariant 1 <= i <= |segment|
      invariant previousWasSeparator == IsSeparator(segment[i - 1])
      invariant forall j | 0 <= j < i :: IsNameChar(segment[j]) || IsSeparator(segment[j])
      invariant forall j | 0 < j < i :: IsSeparator(segment[j]) ==> !IsSeparator(segment[j - 1])
    {
      if IsNameChar(segment[i]) {
        previousWasSeparator := false;
      } else if IsSeparator(segment[i]) {
        if previousWasSeparator {
          return false;
        }
        previousWasSeparator := true;
      } else {
        return false;
      }
      i := i + 1;
    }
    return !previousWasSeparator;
  }

  ghost predicate ValidRepository(repository: string) {
    && |repository| <= 255
    && |Split(repository, '/')| <= 32
    && forall segment | segment in Split(repository, '/') :: IsSegment(segment)
  }

  method ParseRepository(repository: string) returns (ok: bool)
    ensures ok <==> ValidRepository(repository)
  {
    if repository == "" || |repository| > MAX_REPOSITORY_BYTES || !IsAscii(repository) {
      assert repository == "" ==> Split(repository, '/') == [""];
      NamesAreAscii(repository);
      return false;
    }
    var segments := Split(repository, '/');
    if |segments| > MAX_REPOSITORY_SEGMENTS {
      return false;
    }
    var i := 0;
    while i < |segments|
      invariant 0 <= i <= |segments| && forall j | 0 <= j < i :: IsSegment(segments[j])
    {
      var good := IsRepositorySegment(segments[i]);
      if !good {
        return false;
      }
      i := i + 1;
    }
    return true;
  }

  predicate IsRepositoryChar(c: char) {
    IsNameChar(c) || IsSeparator(c) || c == '/'
  }

  lemma RepositoryChars(repository: string)
    requires ValidRepository(repository)
    ensures repository != "" && forall c | c in repository :: IsRepositoryChar(c)
  {
    JoinOfSplit(repository, '/');
    forall c | c in repository ensures IsRepositoryChar(c) {
      JoinedChars(Split(repository, '/'), '/', c);
    }
    assert repository == "" ==> Split(repository, '/') == [""] && "" in Split(repository, '/');
  }

  lemma NamesAreAscii(repository: string)
    ensures ValidRepository(repository) ==> IsAscii(repository) && repository != ""
  {
    if ValidRepository(repository) {
      RepositoryChars(repository);
    }
  }

  // ---- base64url without padding (section 5 of RFC 4648) ----

  type sextet = x: int | 0 <= x < 64

  function Digit(v: sextet): char {
    if v < 26 then 'A' + v as char
    else if v < 52 then 'a' + (v - 26) as char
    else if v < 62 then '0' + (v - 52) as char
    else if v == 62 then '-'
    else '_'
  }

  predicate IsDigit(c: char) {
    'A' <= c <= 'Z' || 'a' <= c <= 'z' || '0' <= c <= '9' || c == '-' || c == '_'
  }

  function Value(c: char): sextet
    requires IsDigit(c)
  {
    if 'A' <= c <= 'Z' then c as int - 'A' as int
    else if 'a' <= c <= 'z' then c as int - 'a' as int + 26
    else if '0' <= c <= '9' then c as int - '0' as int + 52
    else if c == '-' then 62
    else 63
  }

  function Encode(b: Content): string {
    if b == [] then ""
    else if |b| == 1 then [Digit(b[0] / 4), Digit(b[0] % 4 * 16)]
    else if |b| == 2 then [Digit(b[0] / 4), Digit(b[0] % 4 * 16 + b[1] / 16), Digit(b[1] % 16 * 4)]
    else
      [Digit(b[0] / 4), Digit(b[0] % 4 * 16 + b[1] / 16), Digit(b[1] % 16 * 4 + b[2] / 64), Digit(b[2] % 64)] +
        Encode(b[3..])
  }

  predicate AllDigits(s: string) {
    forall c | c in s :: IsDigit(c)
  }

  /** The table of section 5 of RFC 4648, by code points. */
  lemma DigitTells(v: sextet)
    ensures Digit(v) as int ==
      if v < 26 then 65 + v else if v < 52 then 97 + (v - 26) else if v < 62 then 48 + (v - 52)
      else if v == 62 then 45 else 95
  {
  }

  /** The byte at a position, or zero after the end. */
  function ByteAt(b: Content, i: nat): byte {
    if i < |b| then b[i] else 0
  }

  /** Three bytes make four digits: the digits are the bytes' 24 bits, six at a time, with zeros for the
      bytes that are missing at the end, where no digit stands for a missing byte alone. */
  lemma {:induction false} EncodeTells(b: Content, k: nat)
    requires k < |Encode(b)|
    ensures var g := 3 * (k / 4);
      var bits := ByteAt(b, g) * 65536 + ByteAt(b, g + 1) * 256 + ByteAt(b, g + 2);
      Encode(b)[k] == Digit(
        if k % 4 == 0 then bits / 262144 else if k % 4 == 1 then bits / 4096 % 64
        else if k % 4 == 2 then bits / 64 % 64 else bits % 64)
    decreases |b|
  {
    hide Digit, Encode;
    if k >= 4 {
      EncodeLater(b, k);
      EncodeTells(b[3..], k - 4);
      ShiftedBytes(b, 3 * ((k - 4) / 4));
      assert 3 * (k / 4) == 3 * ((k - 4) / 4) + 3 && k % 4 == (k - 4) % 4;
    } else {
      FirstBits(ByteAt(b, 0), ByteAt(b, 1), ByteAt(b, 2));
      EncodeFirst(b, k);
    }
  }

  lemma EncodeLater(b: Content, k: nat)
    requires 4 <= k < |Encode(b)|
    ensures |b| > 3 && k - 4 < |Encode(b[3..])| && Encode(b)[k] == Encode(b[3..])[k - 4]
  {
    hide Digit;
    EncodeNothing();
  }

  lemma ShiftedBytes(b: Content, g: nat)
    requires |b| > 3
    ensures ByteAt(b[3..], g) == ByteAt(b, g + 3) && ByteAt(b[3..], g + 1) == ByteAt(b, g + 4)
    ensures ByteAt(b[3..], g + 2) == ByteAt(b, g + 5)
  {
  }

  lemma EncodeFirst(b: Content, k: nat)
    requires k < 4 && k < |Encode(b)|
    ensures var x, y, z := ByteAt(b, 0), ByteAt(b, 1), ByteAt(b, 2);
      Encode(b)[k] == Digit(
        if k == 0 then x / 4 else if k == 1 then x % 4 * 16 + y / 16
        else if k == 2 then y % 16 * 4 + z / 64 else z % 64)
  {
    hide Digit;
  }

  lemma By64(q: nat, r: nat)
    requires r < 64
    ensures (q * 64 + r) / 64 == q && (q * 64 + r) % 64 == r
  {
  }

  lemma By4096(q: nat, r: nat)
    requires r < 4096
    ensures (q * 4096 + r) / 4096 == q
  {
  }

  lemma By262144(q: nat, r: nat)
    requires r < 262144
    ensures (q * 262144 + r) / 262144 == q
  {
  }

  lemma FirstBits(x: byte, y: byte, z: byte)
    ensures var bits := x * 65536 + y * 256 + z;
      && bits / 262144 == x / 4 && bits / 4096 % 64 == x % 4 * 16 + y / 16
      && bits / 64 % 64 == y % 16 * 4 + z / 64 && bits % 64 == z % 64
  {
    var bits := x * 65536 + y * 256 + z;
    var a, b, c, d := x / 4, x % 4, y / 16, y % 16;
    var s, t := z / 64, z % 64;
    assert x == 4 * a + b && y == 16 * c + d && z == 64 * s + t;
    By262144(a, b * 65536 + y * 256 + z);
    By4096(a * 64 + (b * 16 + c), d * 256 + z);
    By64(a, b * 16 + c);
    By64(x * 1024 + y * 4 + s, t);
    By64(x * 16 + c, d * 4 + s);
  }

  /** A decoder, which may or may not insist that the unused low bits of the last digit are zero. */
  function Decode(s: string, strict: bool): Option<Content>
    requires AllDigits(s)
  {
    if s == "" then Some([])
    else if |s| == 1 then None
    else
      var v0, v1 := Value(s[0]), Value(s[1]);
      if |s| == 2 then
        if strict && v1 % 16 != 0 then None else Some([v0 * 4 + v1 / 16])
      else
        var v2 := Value(s[2]);
        if |s| == 3 then
          if strict && v2 % 4 != 0 then None else Some([v0 * 4 + v1 / 16, v1 % 16 * 16 + v2 / 4])
        else
          match Decode(s[4..], strict)
          case None => None
          case Some(rest) => Some([v0 * 4 + v1 / 16, v1 % 16 * 16 + v2 / 4, v2 % 4 * 64 + Value(s[3])] + rest)
  }

  lemma ValueOfDigit(v: sextet)
    ensures IsDigit(Digit(v)) && Value(Digit(v)) == v
  {
  }

  lemma DigitOfValue(c: char)
    requires IsDigit(c)
    ensures Digit(Value(c)) == c
  {
  }

  lemma {:induction false} EncodeDigits(b: Content)
    ensures AllDigits(Encode(b))
    ensures |Encode(b)| == (4 * |b| + 2) / 3
  {
    hide Digit, IsDigit, Value;
    forall v: sextet ensures IsDigit(Digit(v)) { ValueOfDigit(v); }
    if |b| > 2 {
      EncodeDigits(b[3..]);
    }
  }

  lemma Regroup(b0: byte, b1: byte, b2: byte)
    ensures b0 / 4 * 4 + (b0 % 4 * 16 + b1 / 16) / 16 == b0
    ensures (b0 % 4 * 16 + b1 / 16) % 16 * 16 + (b1 % 16 * 4 + b2 / 64) / 4 == b1
    ensures (b1 % 16 * 4 + b2 / 64) % 4 * 64 + b2 % 64 == b2
  {
  }

  lemma DecodeEncodeEnd(b: Content, strict: bool)
    requires 1 <= |b| <= 2
    ensures AllDigits(Encode(b)) && Decode(Encode(b), strict) == Some(b)
  {
    hide Digit, IsDigit, Value;
    EncodeDigits(b);
    forall v: sextet ensures IsDigit(Digit(v)) && Value(Digit(v)) == v { ValueOfDigit(v); }
    Regroup(b[0], if |b| == 1 then 0 else b[1], 0);
    assert b == if |b| == 1 then [b[0]] else [b[0], b[1]];
  }

  lemma DecodeGroup(v0: sextet, v1: sextet, v2: sextet, v3: sextet, s: string, strict: bool)
    requires AllDigits(s)
    ensures AllDigits([Digit(v0), Digit(v1), Digit(v2), Digit(v3)] + s)
    ensures Decode([Digit(v0), Digit(v1), Digit(v2), Digit(v3)] + s, strict) ==
      match Decode(s, strict)
      case None => None
      case Some(rest) => Some([v0 * 4 + v1 / 16, v1 % 16 * 16 + v2 / 4, v2 % 4 * 64 + v3] + rest)
  {
    hide Digit, IsDigit, Value;
    forall v: sextet ensures IsDigit(Digit(v)) && Value(Digit(v)) == v { ValueOfDigit(v); }
    assert ([Digit(v0), Digit(v1), Digit(v2), Digit(v3)] + s)[4..] == s;
  }

  /** Decoding undoes encoding, however strict the decoder. */
  lemma {:induction false} DecodeEncode(b: Content, strict: bool)
    ensures AllDigits(Encode(b)) && Decode(Encode(b), strict) == Some(b)
  {
    hide Digit, Decode, AllDigits;
    if b == [] {
      NothingDecodes(strict);
    } else if |b| <= 2 {
      DecodeEncodeEnd(b, strict);
    } else {
      DecodeEncode(b[3..], strict);
      Regroup(b[0], b[1], b[2]);
      DecodeGroup(b[0] / 4, b[0] % 4 * 16 + b[1] / 16, b[1] % 16 * 4 + b[2] / 64, b[2] % 64, Encode(b[3..]), strict);
      assert b == [b[0], b[1], b[2]] + b[3..];
    }
  }

  lemma NothingDecodes(strict: bool)
    ensures AllDigits("") && Decode("", strict) == Some([])
  {
  }

  lemma Ungroup(v0: sextet, v1: sextet, v2: sextet, v3: sextet)
    ensures var x0, x1, x2 := v0 * 4 + v1 / 16, v1 % 16 * 16 + v2 / 4, v2 % 4 * 64 + v3;
      x0 / 4 == v0 && x0 % 4 * 16 + x1 / 16 == v1 && x1 % 16 * 4 + x2 / 64 == v2 && x2 % 64 == v3
  {
    assert (v0 * 4 + v1 / 16) / 4 == v0 && (v0 * 4 + v1 / 16) % 4 == v1 / 16;
    assert (v1 % 16 * 16 + v2 / 4) / 16 == v1 % 16 && (v1 % 16 * 16 + v2 / 4) % 16 == v2 / 4;
    assert (v2 % 4 * 64 + v3) / 64 == v2 % 4 && (v2 % 4 * 64 + v3) % 64 == v3;
  }

  lemma EncodeDecodeTwo(s: string)
    requires |s| == 2 && AllDigits(s) && Decode(s, true).Some?
    ensures Encode(Decode(s, true).value) == s
  {
    hide Digit, IsDigit, Value;
    assert s[0] in s && s[1] in s;
    DigitOfValue(s[0]);
    DigitOfValue(s[1]);
    Ungroup(Value(s[0]), Value(s[1]), 0, 0);
    assert s == [s[0], s[1]];
  }

  lemma EncodeDecodeThree(s: string)
    requires |s| == 3 && AllDigits(s) && Decode(s, true).Some?
    ensures Encode(Decode(s, true).value) == s
  {
    hide Digit, IsDigit, Value;
    assert s[0] in s && s[1] in s && s[2] in s;
    DigitOfValue(s[0]);
    DigitOfValue(s[1]);
    DigitOfValue(s[2]);
    Ungroup(Value(s[0]), Value(s[1]), Value(s[2]), 0);
    assert s == [s[0], s[1], s[2]];
  }

  lemma EncodeGroup(v0: sextet, v1: sextet, v2: sextet, v3: sextet, rest: Content)
    ensures Encode([v0 * 4 + v1 / 16, v1 % 16 * 16 + v2 / 4, v2 % 4 * 64 + v3] + rest)
      == [Digit(v0), Digit(v1), Digit(v2), Digit(v3)] + Encode(rest)
  {
    hide Digit;
    Ungroup(v0, v1, v2, v3);
    var b: Content := [v0 * 4 + v1 / 16, v1 % 16 * 16 + v2 / 4, v2 % 4 * 64 + v3] + rest;
    assert b[3..] == rest;
  }

  /** Encoding undoes a strict decoding: without the strictness only canonical spellings come back. */
  lemma {:induction false} EncodeDecode(s: string)
    requires AllDigits(s) && Decode(s, true).Some?
    ensures Encode(Decode(s, true).value) == s
    decreases |s|
  {
    hide Digit, IsDigit, Value, Encode;
    if |s| == 2 {
      EncodeDecodeTwo(s);
    } else if |s| == 3 {
      EncodeDecodeThree(s);
    } else if |s| > 3 {
      EncodeDecode(s[4..]);
      var head := s[..4];
      forall c | c in head ensures IsDigit(c) && Digit(Value(c)) == c { DigitOfValue(c); }
      EncodeGroup(Value(s[0]), Value(s[1]), Value(s[2]), Value(s[3]), Decode(s[4..], true).value);
      assert s == [head[0], head[1], head[2], head[3]] + s[4..];
    } else {
      EncodeNothing();
    }
  }

  lemma EncodeNothing()
    ensures Encode([]) == ""
  {
  }

  /** What a strict decoder takes, a lenient one takes for the same bytes. */
  lemma {:induction false} StrictIsLenient(s: string)
    requires AllDigits(s) && Decode(s, true).Some?
    ensures Decode(s, false) == Decode(s, true)
    decreases |s|
  {
    hide IsDigit, Value;
    if |s| > 3 {
      StrictIsLenient(s[4..]);
    }
  }

  /** A lenient decoder reads aliases: what it takes is the encoding of what it reads exactly when a
      strict one takes it too. So `YR`, which it reads as `YQ`, must be refused by encoding again. */
  lemma LenientAliases(s: string)
    requires AllDigits(s) && Decode(s, false).Some?
    ensures Encode(Decode(s, false).value) == s <==> Decode(s, true).Some?
  {
    hide Decode, Encode, IsDigit;
    if Decode(s, true).Some? {
      StrictIsLenient(s);
      EncodeDecode(s);
    }
    DecodeEncode(Decode(s, false).value, true);
  }

  // ---- Locators ----

  /** `locator`. */
  ghost function Locator(repository: string): string
    requires ValidRepository(repository)
  {
    NamesAreAscii(repository);
    Encode(BytesOf(repository))
  }

  /** Some bytes have this encoding. */
  ghost predicate IsEncoding(s: string) {
    exists b: Content :: Encode(b) == s
  }

  lemma EncodingTells(s: string, strict: bool)
    ensures IsEncoding(s) <==>
      AllDigits(s) && Decode(s, strict).Some? && Encode(Decode(s, strict).value) == s
  {
    hide Encode, Decode, IsDigit;
    if IsEncoding(s) {
      var b: Content :| Encode(b) == s;
      DecodeEncode(b, strict);
    }
  }

  /** `decode_repository_locator`, with either kind of decoder. */
  method DecodeLocator(locator: string, strict: bool) returns (r: Result<string, RouteError>)
    ensures r.Ok? <==> exists repository :: ValidRepository(repository) && Locator(repository) == locator
    ensures r.Ok? ==> ValidRepository(r.value) && Locator(r.value) == locator
    ensures r == Err(InvalidRepositoryLocator) <==>
      locator == "" || |locator| > 340 || !IsEncoding(locator)
    ensures r.Ok? || r == Err(InvalidRepositoryLocator) || r == Err(InvalidRepository)
  {
    hide ValidRepository, Digit, Value, IsDigit, Decode, Encode, IsEncoding;
    LocatorsDecode(locator, strict);
    EncodingTells(locator, strict);
    if locator == "" || |locator| > MAX_LOCATOR_BYTES || !AllDigits(locator) {
      return Err(InvalidRepositoryLocator);
    }
    var decoded := Decode(locator, strict);
    if decoded.None? {
      return Err(InvalidRepositoryLocator);
    }
    if Encode(decoded.value) != locator {
      return Err(InvalidRepositoryLocator);
    }
    var repository := TextOf(decoded.value);
    var good := ParseRepository(repository);
    if !good {
      return Err(InvalidRepository);
    }
    NamesAreAscii(repository);
    BytesOfText(decoded.value);
    return Ok(repository);
  }

  /** What every locator of a repository is like, so that no check rejects it. */
  lemma LocatorsDecode(locator: string, strict: bool)
    ensures forall repository | ValidRepository(repository) && Locator(repository) == locator ::
      && 0 < |locator| <= MAX_LOCATOR_BYTES && AllDigits(locator)
      && Decode(locator, strict).Some?
      && Encode(Decode(locator, strict).value) == locator && TextOf(Decode(locator, strict).value) == repository
  {
    hide ValidRepository, Decode, Encode, IsDigit;
    forall repository | ValidRepository(repository) && Locator(repository) == locator
      ensures && 0 < |locator| <= MAX_LOCATOR_BYTES && AllDigits(locator)
        && Decode(locator, strict).Some?
        && Encode(Decode(locator, strict).value) == locator && TextOf(Decode(locator, strict).value) == repository
    {
      LocatorBounded(repository);
      DecodeEncode(BytesOf(repository), strict);
      TextOfBytes(repository);
    }
  }

  /** Every admitted repository has a locator of at most 340 characters. */
  lemma LocatorBounded(repository: string)
    requires ValidRepository(repository)
    ensures IsAscii(repository) && 0 < |Locator(repository)| <= 340 && AllDigits(Locator(repository))
  {
    hide Encode, IsDigit;
    NamesAreAscii(repository);
    EncodeDigits(BytesOf(repository));
  }

  /** Two repositories never share a locator. */
  lemma LocatorInjective(a: string, b: string)
    requires ValidRepository(a) && ValidRepository(b) && Locator(a) == Locator(b)
    ensures a == b
  {
    hide ValidRepository, Decode, Encode, IsDigit, TextOf;
    LocatorsDecode(Locator(a), true);
  }
}
