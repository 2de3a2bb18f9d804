/** The ar reader gives back what the member writer wrote. */
module ArchiveProperties {
  import opened Wrappers
  import opened Ascii
  import opened Digests
  import opened Archives

  // ---- The layout of a header ----

  lemma PadLength(s: string, width: nat)
    ensures |Pad(s, width)| == if |s| < width then width else |s|
    ensures IsAscii(s) ==> IsAscii(Pad(s, width))
    ensures IsAscii(Pad(s, width)) ==> IsAscii(s)
    ensures |s| <= width ==> Pad(s, width) == s + seq(width - |s|, _ => ' ')
  {
    assert forall c | c in s :: c in Pad(s, width);
    assert |s| == width ==> s + seq(0, _ => ' ') == s;
  }

  lemma DigitsAscii(n: nat, base: nat)
    requires 2 <= base <= 10
    ensures IsAscii(Digits(n, base)) && Digits(n, base) != ""
  {
  }

  lemma ZerosPlain()
    ensures |Zeros()| == 24 && IsAscii(Zeros())
  {
    PadLength("0", 12);
    PadLength("0", 6);
    AsciiConcat(Pad("0", 12), Pad("0", 6));
    AsciiConcat(Pad("0", 12) + Pad("0", 6), Pad("0", 6));
  }

  lemma HeaderAscii(name: string, size: nat, mode: nat)
    ensures IsAscii(HeaderText(name, size, mode)) <==> IsAscii(name)
    ensures |HeaderText(name, size, mode)| ==
      |Pad(name + "/", NAME_BYTES)| + 24 + |Pad(Digits(mode, 8), 8)| + |Pad(Digits(size, 10), 10)| + 2
  {
    hide Digits, Pad, Zeros;
    ZerosPlain();
    PadLength(name + "/", NAME_BYTES);
    PadLength(Digits(mode, 8), 8);
    PadLength(Digits(size, 10), 10);
    DigitsAscii(mode, 8);
    DigitsAscii(size, 10);
    assert forall c | c in name :: c in name + "/";
    var a := Pad(name + "/", NAME_BYTES);
    if IsAscii(name) {
      assert IsAscii("/") && IsAscii("`\n");
      AsciiConcat(name, "/");
      AsciiConcat(a, Zeros());
      AsciiConcat(a + Zeros(), Pad(Digits(mode, 8), 8));
      AsciiConcat(a + Zeros() + Pad(Digits(mode, 8), 8), Pad(Digits(size, 10), 10));
      HeaderEnd(a + Zeros() + Pad(Digits(mode, 8), 8) + Pad(Digits(size, 10), 10));
    } else {
      assert forall c | c in a :: c in HeaderText(name, size, mode);
    }
  }

  lemma HeaderEnd(s: string)
    requires IsAscii(s)
    ensures IsAscii(s + "`\n")
  {
    assert IsAscii("`\n");
  }

  /** The writer takes exactly the writable members: a 16-character name passes its first check but
      leaves no room for the slash. */
  lemma WriteSucceedsIff(member: Member, mode: nat)
    ensures WriteMember(member, mode).Some? <==> Writable(member, mode)
  {
    hide HeaderText, Digits, Pad, IsAscii;
    HeaderAscii(member.name, |member.data|, mode);
    PadLength(member.name + "/", NAME_BYTES);
    PadLength(Digits(mode, 8), 8);
    PadLength(Digits(|member.data|, 10), 10);
  }

  /** A written member is its header's parts, its data and an even length. */
  lemma WrittenLength(member: Member, mode: nat)
    requires Writable(member, mode)
    ensures WriteMember(member, mode).Some?
    ensures |WriteMember(member, mode).value| == HEADER_BYTES + |member.data| + |member.data| % 2
    ensures |WriteMember(member, mode).value| % 2 == 0
  {
    hide HeaderText, Writable;
    WriteSucceedsIff(member, mode);
  }

  lemma HeaderFields(name: string, size: nat, mode: nat)
    requires |name| < NAME_BYTES && |Digits(size, 10)| <= 10 && |Digits(mode, 8)| <= 8
    ensures var text := HeaderText(name, size, mode);
      && |text| == HEADER_BYTES
      && text[..16] == Pad(name + "/", NAME_BYTES)
      && text[48..58] == Pad(Digits(size, 10), 10)
      && text[58..60] == "`\n"
  {
    hide Digits, Pad, Zeros;
    ZerosPlain();
    PadLength(name + "/", NAME_BYTES);
    PadLength(Digits(mode, 8), 8);
    PadLength(Digits(size, 10), 10);
  }

  lemma TextSlice(s: string, i: nat, j: nat)
    requires IsAscii(s) && i <= j <= |s|
    ensures TextOf(BytesOf(s)[i..j]) == s[i..j]
    ensures IsAscii(s[i..j])
  {
    hide ByteOf;
    forall k | 0 <= k < j - i ensures TextOf(BytesOf(s)[i..j])[k] == s[i..j][k] {
      assert s[i + k] in s;
      assert BytesOf(s)[i..j][k] == ByteOf(s[i + k]);
      ByteOfAscii(s[i + k]);
    }
    assert forall c | c in s[i..j] :: c in s;
  }

  lemma ByteOfAscii(c: char)
    requires c as int < 128
    ensures ByteOf(c) as char == c
  {
  }

  lemma NameTrims(name: string)
    requires |name| < NAME_BYTES && ValidName(name)
    ensures TrimRight(Pad(name + "/", NAME_BYTES), {' ', '/'}) == name
  {
    PadLength(name + "/", NAME_BYTES);
    var count := NAME_BYTES - |name| - 1;
    var trimmed := {' ', '/'};
    assert name != "" ==> name[|name| - 1] in name;
    SlashTrims(name, count);
  }

  lemma {:induction false} SlashTrims(name: string, count: nat)
    requires name == "" || name[|name| - 1] !in {' ', '/'}
    ensures TrimRight(name + "/" + seq(count, _ => ' '), {' ', '/'}) == name
  {
    var s := name + "/" + seq(count, _ => ' ');
    if count == 0 {
      assert s == name + "/" && s[..|s| - 1] == name;
    } else {
      assert s[..|s| - 1] == name + "/" + seq(count - 1, _ => ' ');
      SlashTrims(name, count - 1);
    }
  }

  lemma SizeParses(size: nat)
    requires |Digits(size, 10)| <= 10
    ensures ParseInt(StripRight(StripLeft(Pad(Digits(size, 10), 10)))) == Some(size)
  {
    hide Digits, ParseGrouped, ParseInt;
    var digits := Digits(size, 10);
    PadLength(digits, 10);
    assert digits[0] in digits && digits[|digits| - 1] in digits;
    assert Pad(digits, 10)[0] == digits[0];
    StripPadding(digits, 10 - |digits|);
    DecimalRoundTrip(size);
    PlainInt(digits);
  }

  /** The bytes after a written header read back as the data. */
  lemma DataFollows(header: Content, data: Content, more: Content)
    requires |header| == HEADER_BYTES
    ensures var rest := header + data + Padding(|data|) + more;
      && |rest| >= HEADER_BYTES + |data|
      && rest[..HEADER_BYTES] == header
      && rest[HEADER_BYTES..HEADER_BYTES + |data|] == data
      && rest[HEADER_BYTES + |data| + |data| % 2..] == more
  {
  }

  lemma MarkSlice(s: string, i: nat)
    requires IsAscii(s) && i + 2 <= |s| && s[i..i + 2] == "`\n"
    ensures BytesOf(s)[i..i + 2] == [0x60, 0x0A]
  {
    assert s[i] == s[i..i + 2][0] && s[i + 1] == s[i..i + 2][1];
    assert BytesOf(s)[i] == ByteOf(s[i]) && BytesOf(s)[i + 1] == ByteOf(s[i + 1]);
  }

  /** The reader finds a written member wherever it stands, and where the next one begins. */
  lemma MemberReadsBack(member: Member, mode: nat, more: Content)
    requires Writable(member, mode)
    ensures WriteMember(member, mode).Some?
    ensures ReadMember(WriteMember(member, mode).value + more) == Some((member, |WriteMember(member, mode).value|))
    ensures (WriteMember(member, mode).value + more)[|WriteMember(member, mode).value|..] == more
  {
    hide HeaderText, Digits, Pad, TextOf, BytesOf, IsAscii, ValidName, ParseInt, StripRight, StripLeft, TrimRight,
      Padding;
    WrittenLength(member, mode);
    var n := |member.data|;
    var text := HeaderText(member.name, n, mode);
    HeaderFields(member.name, n, mode);
    HeaderAscii(member.name, n, mode);
    var header := BytesOf(text);
    var rest := WriteMember(member, mode).value + more;
    DataFollows(header, member.data, more);
    assert rest[..16] == header[..16] && rest[48..58] == header[48..58] && rest[58..60] == header[58..60];
    TextSlice(text, 0, 16);
    TextSlice(text, 48, 58);
    MarkSlice(text, 58);
    NameTrims(member.name);
    SizeParses(n);
  }

  // ---- Whole archives ----

  datatype File = File(member: Member, mode: nat)

  predicate AllWritable(files: seq<File>) {
    forall f | f in files :: Writable(f.member, f.mode)
  }

  function WrittenMembers(files: seq<File>): Content {
    if files == [] then [] else
      var first := WriteMember(files[0].member, files[0].mode);
      (if first.None? then [] else first.value) + WrittenMembers(files[1..])
  }

  function Archive(files: seq<File>): Content
    requires IsAscii(ARCHIVE_MAGIC)
  {
    BytesOf(ARCHIVE_MAGIC) + WrittenMembers(files)
  }

  /** Setting every member in turn. */
  function PutAll(members: seq<Member>, files: seq<File>): seq<Member>
    decreases |files|
  {
    if files == [] then members else PutAll(Put(members, files[0].member), files[1..])
  }

  lemma {:induction false} MembersReadBack(files: seq<File>, members: seq<Member>)
    requires AllWritable(files)
    ensures ReadMembers(WrittenMembers(files), members) == Some(PutAll(members, files))
  {
    hide ReadMember, WriteMember, Writable, Put;
    if files != [] {
      var first := files[0];
      assert first in files && forall f | f in files[1..] :: f in files;
      MemberReadsBack(first.member, first.mode, WrittenMembers(files[1..]));
      WrittenLength(first.member, first.mode);
      MembersReadBack(files[1..], Put(members, first.member));
    }
  }

  lemma MagicAscii()
    ensures IsAscii(ARCHIVE_MAGIC)
  {
  }

  /** Reading an archive of written members sets exactly those members, in order; of two with the
      same name the later one's data stays. */
  lemma ArchiveReadsBack(files: seq<File>)
    requires AllWritable(files)
    ensures IsAscii(ARCHIVE_MAGIC) && ReadArchive(Archive(files)) == Some(PutAll([], files))
  {
    hide WrittenMembers, ReadMembers, PutAll;
    MagicAscii();
    TextOfBytes(ARCHIVE_MAGIC);
    assert Archive(files)[..8] == BytesOf(ARCHIVE_MAGIC) && Archive(files)[8..] == WrittenMembers(files);
    MembersReadBack(files, []);
  }

  ghost predicate DistinctNames(files: seq<File>) {
    forall i, j | 0 <= i < j < |files| :: files[i].member.name != files[j].member.name
  }

  function MembersOf(files: seq<File>): seq<Member> {
    seq(|files|, i requires 0 <= i < |files| => files[i].member)
  }

  lemma {:induction false} PutNew(members: seq<Member>, member: Member)
    requires forall m | m in members :: m.name != member.name
    ensures Put(members, member) == members + [member]
  {
    if members != [] {
      assert members[0] in members && forall m | m in members[1..] :: m in members;
      PutNew(members[1..], member);
      assert members == [members[0]] + members[1..];
    }
  }

  lemma {:induction false} PutAllDistinct(files: seq<File>, k: nat)
    requires DistinctNames(files) && k <= |files|
    ensures PutAll(MembersOf(files[..k]), files[k..]) == MembersOf(files)
    decreases |files| - k
  {
    if k == |files| {
      assert files[..k] == files;
    } else {
      var before := MembersOf(files[..k]);
      forall m | m in before ensures m.name != files[k].member.name {
        var i :| 0 <= i < k && before[i] == m;
        assert m == files[i].member;
      }
      PutNew(before, files[k].member);
      assert MembersOf(files[..k + 1]) == before + [files[k].member];
      assert files[k..][1..] == files[k + 1..];
      PutAllDistinct(files, k + 1);
    }
  }

  /** With distinct names the archive reads back as exactly the members written, in order. */
  lemma DistinctMembersReadBack(files: seq<File>)
    requires AllWritable(files) && DistinctNames(files)
    ensures IsAscii(ARCHIVE_MAGIC) && ReadArchive(Archive(files)) == Some(MembersOf(files))
  {
    hide Archive, ReadArchive, PutAll, AllWritable, DistinctNames, IsAscii;
    ArchiveReadsBack(files);
    PutAllDistinct(files, 0);
    assert MembersOf(files[..0]) == [] && files[0..] == files;
  }

  lemma {:induction false} WrittenEven(files: seq<File>)
    requires AllWritable(files)
    ensures |WrittenMembers(files)| % 2 == 0
  {
    hide WriteMember, Writable, WrittenMembers;
    WrittenUnfold(files);
    if files != [] {
      assert files[0] in files && forall f | f in files[1..] :: f in files;
      WrittenLength(files[0].member, files[0].mode);
      WrittenEven(files[1..]);
      EvenSum(|WriteMember(files[0].member, files[0].mode).value|, |WrittenMembers(files[1..])|);
    }
  }

  lemma WrittenUnfold(files: seq<File>)
    ensures files == [] ==> WrittenMembers(files) == []
    ensures files != [] && WriteMember(files[0].member, files[0].mode).Some? ==>
      WrittenMembers(files) == WriteMember(files[0].member, files[0].mode).value + WrittenMembers(files[1..])
  {
    hide WriteMember;
  }

  lemma EvenSum(a: nat, b: nat)
    requires a % 2 == 0 && b % 2 == 0
    ensures (a + b) % 2 == 0
  {
  }

  lemma {:induction false} WrittenSplit(a: seq<File>, b: seq<File>)
    ensures WrittenMembers(a + b) == WrittenMembers(a) + WrittenMembers(b)
  {
    hide WriteMember;
    if a == [] {
      assert a + b == b;
    } else {
      assert (a + b)[1..] == a[1..] + b;
      WrittenSplit(a[1..], b);
    }
  }

  /** Every member's header starts at an even offset, where the reader finds that member. */
  lemma HeadersAligned(files: seq<File>, k: nat)
    requires AllWritable(files) && k < |files|
    ensures IsAscii(ARCHIVE_MAGIC)
    ensures var offset := 8 + |WrittenMembers(files[..k])|;
      && offset % 2 == 0 && offset <= |Archive(files)|
      && ReadMember(Archive(files)[offset..]).Some?
      && ReadMember(Archive(files)[offset..]).value.0 == files[k].member
  {
    hide WriteMember, Writable, ReadMember;
    MagicAscii();
    var before, rest := files[..k], files[k..];
    assert files == before + rest && rest[0] == files[k] && files[k] in files;
    assert forall f | f in before :: f in files;
    WrittenSplit(before, rest);
    WrittenEven(before);
    var offset := 8 + |WrittenMembers(before)|;
    assert Archive(files)[offset..] == WrittenMembers(rest);
    MemberReadsBack(files[k].member, files[k].mode, WrittenMembers(rest[1..]));
  }
}
