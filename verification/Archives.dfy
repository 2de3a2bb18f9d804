/** The ar archives of the Debian fixtures: the member writer and the archive reader. */
module Archives {
  import opened Wrappers
  import opened Ascii
  import opened Digests

  const ARCHIVE_MAGIC := "!<arch>\n"
  const HEADER_BYTES := 60
  const NAME_BYTES := 16

  datatype Member = Member(name: string, data: Content)

  // ---- Numbers and padding ----

  function DigitChar(d: nat): char
    requires d < 10
  {
    '0' + d as char
  }

  /** `format` of a number in a base up to ten. */
  function Digits(n: nat, base: nat): (s: string)
    requires 2 <= base <= 10
    ensures s != "" && forall c | c in s :: '0' <= c <= '9'
    decreases n
  {
    if n < base then [DigitChar(n)] else
      QuotientShrinks(n, base);
      Digits(n / base, base) + [DigitChar(n % base)]
  }

  lemma QuotientShrinks(n: nat, base: nat)
    requires 2 <= base <= n
    ensures n / base < n && n % base < base
  {
    assert n == base * (n / base) + n % base;
    if n / base >= n {
      Doubled(base, n / base);
      assert false;
    }
  }

  lemma Doubled(base: nat, k: nat)
    requires base >= 2
    ensures base * k >= 2 * k
  {
  }

  function Pad(s: string, width: nat): string {
    if |s| < width then s + seq(width - |s|, _ => ' ') else s
  }

  predicate IsSpace(c: char) {
    c == ' ' || 9 <= c as int <= 13 || 28 <= c as int <= 31
  }

  /** `rstrip` of the given characters. */
  function TrimRight(s: string, trimmed: set<char>): string {
    if s != "" && s[|s| - 1] in trimmed then TrimRight(s[..|s| - 1], trimmed) else s
  }

  function StripLeft(s: string): string {
    if s != "" && IsSpace(s[0]) then StripLeft(s[1..]) else s
  }

  function StripRight(s: string): string {
    if s != "" && IsSpace(s[|s| - 1]) then StripRight(s[..|s| - 1]) else s
  }

  /** Decimal digits, with single underscores allowed between them. */
  function ParseGrouped(s: string): Option<nat>
    decreases |s|
  {
    if s == "" then None
    else
      var c := s[|s| - 1];
      if !('0' <= c <= '9') then None
      else if |s| == 1 then Some(c as int - '0' as int)
      else
        var rest := if s[|s| - 2] == '_' then s[..|s| - 2] else s[..|s| - 1];
        match ParseGrouped(rest)
        case None => None
        case Some(n) => Some(10 * n + (c as int - '0' as int))
  }

  /** Python's `int` of stripped text: an optional sign before the digits. */
  function ParseInt(s: string): Option<int> {
    if s != "" && (s[0] == '+' || s[0] == '-') then
      match ParseGrouped(s[1..])
      case None => None
      case Some(n) => Some(if s[0] == '-' then 0 - n as int else n)
    else
      match ParseGrouped(s)
      case None => None
      case Some(n) => Some(n)
  }

  lemma {:induction false} DecimalRoundTrip(n: nat)
    ensures ParseGrouped(Digits(n, 10)) == Some(n)
  {
    if n >= 10 {
      DecimalRoundTrip(n / 10);
      var s, t := Digits(n, 10), Digits(n / 10, 10);
      assert t[|t| - 1] in t && s[|s| - 2] == t[|t| - 1];
      assert s[..|s| - 1] == t;
    }
  }

  lemma PlainInt(s: string)
    requires s != "" && '0' <= s[0] <= '9'
    ensures ParseInt(s) == match ParseGrouped(s) case None => None case Some(n) => Some(n)
  {
  }

  lemma {:induction false} TrimPadding(s: string, count: nat, trimmed: set<char>)
    requires ' ' in trimmed && (s == "" || s[|s| - 1] !in trimmed)
    ensures TrimRight(s + seq(count, _ => ' '), trimmed) == s
  {
    if count == 0 {
      assert s + seq(0, _ => ' ') == s;
    } else {
      var padded := s + seq(count, _ => ' ');
      assert padded[..|padded| - 1] == s + seq(count - 1, _ => ' ');
      TrimPadding(s, count - 1, trimmed);
    }
  }

  lemma {:induction false} StripPadding(s: string, count: nat)
    requires s != "" && !IsSpace(s[|s| - 1])
    ensures StripRight(s + seq(count, _ => ' ')) == s
  {
    if count == 0 {
      assert s + seq(0, _ => ' ') == s;
    } else {
      var padded := s + seq(count, _ => ' ');
      assert padded[..|padded| - 1] == s + seq(count - 1, _ => ' ');
      StripPadding(s, count - 1);
    }
  }

  // ---- Writing ----

  predicate ValidName(name: string) {
    |name| <= NAME_BYTES && forall c | c in name :: c !in {' ', '/', '\n'}
  }

  function HeaderText(name: string, size: nat, mode: nat): string {
    Pad(name + "/", NAME_BYTES) + Zeros() + Pad(Digits(mode, 8), 8) + Pad(Digits(size, 10), 10) + "`\n"
  }

  /** Modification time, owner and group. */
  function Zeros(): string {
    Pad("0", 12) + Pad("0", 6) + Pad("0", 6)
  }

  function Padding(size: nat): Content {
    if size % 2 == 1 then [0x0A] else []
  }

  /** `ar_member`; None stands for each of its exceptions. */
  function WriteMember(member: Member, mode: nat): Option<Content> {
    var header := HeaderText(member.name, |member.data|, mode);
    if !ValidName(member.name) || !IsAscii(header) || |header| != HEADER_BYTES then None
    else Some(BytesOf(header) + member.data + Padding(|member.data|))
  }

  /** What a caller can check beforehand: names of at most 15 ASCII characters, lengths of at most
      ten decimal digits, modes of at most eight octal ones. */
  predicate Writable(member: Member, mode: nat) {
    && |member.name| < NAME_BYTES && IsAscii(member.name) && ValidName(member.name)
    && |Digits(|member.data|, 10)| <= 10 && |Digits(mode, 8)| <= 8
  }

  // ---- Reading ----

  /** Setting a key of a dictionary that keeps its insertion order. */
  function Put(members: seq<Member>, member: Member): seq<Member> {
    if members == [] then [member]
    else if members[0].name == member.name then [member] + members[1..]
    else [members[0]] + Put(members[1..], member)
  }

  /** One member at the front of `rest`, its name, and where it ends. */
  function ReadMember(rest: Content): (r: Option<(Member, nat)>)
    ensures r.Some? ==> r.value.1 >= HEADER_BYTES
  {
    if |rest| < HEADER_BYTES || rest[58..60] != [0x60, 0x0A] then None
    else
      var name, size := TextOf(rest[..16]), TextOf(rest[48..58]);
      if !IsAscii(name) || !IsAscii(size) then None
      else
        match ParseInt(StripRight(StripLeft(size)))
        case None => None
        case Some(n) =>
          // A negative size is no slice's length.
          if n < 0 || |rest| < HEADER_BYTES + n then None
          else
            var data := rest[HEADER_BYTES..HEADER_BYTES + n];
            Some((Member(TrimRight(name, {' ', '/'}), data), HEADER_BYTES + n + n % 2))
  }

  function ReadMembers(rest: Content, members: seq<Member>): Option<seq<Member>>
    decreases |rest|
  {
    if rest == [] then Some(members)
    else
      match ReadMember(rest)
      case None => None
      case Some((member, end)) =>
        if end > |rest| then None else ReadMembers(rest[end..], Put(members, member))
  }

  function ReadArchive(data: Content): Option<seq<Member>> {
    if |data| < 8 || TextOf(data[..8]) != ARCHIVE_MAGIC then None else ReadMembers(data[8..], [])
  }

  /** `ar_members`. */
  method ArMembers(data: Content) returns (r: Option<seq<Member>>)
    ensures r == ReadArchive(data)
  {
    hide ReadMember, TextOf;
    if |data| < 8 || TextOf(data[..8]) != ARCHIVE_MAGIC {
      return None;
    }
    var members := [];
    var offset := 8;
    while offset < |data|
      invariant 8 <= offset
      invariant offset <= |data| ==> ReadMembers(data[offset..], members) == ReadMembers(data[8..], [])
      invariant offset > |data| ==> ReadMembers(data[8..], []) == None
    {
      var next := ReadMember(data[offset..]);
      if next.None? {
        return None;
      }
      var (member, end) := next.value;
      assert offset + end <= |data| ==> data[offset..][end..] == data[offset + end..];
      members := Put(members, member);
      offset := offset + end;
    }
    return if offset == |data| then Some(members) else None;
  }
}
