/** The zstd frames of raw blocks that the fixtures are packed in, and their reader. */
module Zstd {
  import opened Wrappers
  import opened Digests
  import opened Integers

  const MAGIC: Content := [0x28, 0xB5, 0x2F, 0xFD]
  const DESCRIPTOR: byte := 0xA0
  const MAX_BLOCK := 128 * 1024
  const HEADER_BYTES := 3
  /** Sizes from here on do not fit the 21 bits a block header has for them. */
  const SIZE_LIMIT := 0x20_0000

  /** `struct.pack("<I", …)` refuses larger sizes. */
  predicate Packable(data: Content) {
    |data| < 0x1_0000_0000
  }

  // ---- Writing ----

  function BlockHeader(size: nat, last: bool): nat {
    size * 8 + if last then 1 else 0
  }

  function Block(chunk: Content, last: bool): Content {
    LittleEndian(BlockHeader(|chunk|, last), HEADER_BYTES) + chunk
  }

  function Blocks(data: Content): Content
    decreases |data|
  {
    if |data| <= MAX_BLOCK then Block(data, true) else Block(data[..MAX_BLOCK], false) + Blocks(data[MAX_BLOCK..])
  }

  function Prefix(size: nat): Content {
    MAGIC + [DESCRIPTOR] + LittleEndian(size, 4)
  }

  function Frame(data: Content): Content {
    Prefix(|data|) + Blocks(data)
  }

  /** `zstd_raw`. */
  method ZstdRaw(data: Content) returns (r: Option<Content>)
    ensures r.Some? <==> Packable(data)
    ensures r.Some? ==> r.value == Frame(data)
  {
    hide Block, Prefix;
    if |data| >= 0x1_0000_0000 {
      return None;
    }
    var output := Prefix(|data|);
    if data == [] {
      EmptyBlock();
      return Some(output + [0x01, 0x00, 0x00]);
    }
    var offset := 0;
    assert data[0..] == data;
    while offset < |data|
      invariant 0 <= offset <= |data|
      invariant offset < |data| ==> output + Blocks(data[offset..]) == Frame(data)
      invariant offset == |data| ==> output == Frame(data)
    {
      var end := if offset + MAX_BLOCK < |data| then offset + MAX_BLOCK else |data|;
      var chunk := data[offset..end];
      var last := offset + |chunk| == |data|;
      NextBlock(data, offset, output);
      output := output + Block(chunk, last);
      offset := end;
    }
    return Some(output);
  }

  lemma EmptyBlock()
    ensures Blocks([]) == [0x01, 0x00, 0x00]
  {
    assert LittleEndian(1, 3) == [1] + ([0] + ([0] + []));
  }

  lemma NextBlock(data: Content, offset: nat, output: Content)
    requires offset < |data|
    ensures var end := if offset + MAX_BLOCK < |data| then offset + MAX_BLOCK else |data|;
      output + Blocks(data[offset..]) ==
        output + Block(data[offset..end], end == |data|) + if end == |data| then [] else Blocks(data[end..])
  {
    hide Block;
    var rest := data[offset..];
    if offset + MAX_BLOCK < |data| {
      var end := offset + MAX_BLOCK;
      assert rest[..MAX_BLOCK] == data[offset..end] && rest[MAX_BLOCK..] == data[end..];
      assert output + (Block(data[offset..end], false) + Blocks(data[end..])) ==
        output + Block(data[offset..end], false) + Blocks(data[end..]);
    } else {
      assert data[offset..|data|] == rest;
      assert output + Block(rest, true) + [] == output + Block(rest, true);
    }
  }

  // ---- Reading ----

  /** What the blocks in `rest` hold; None when a check of the reader fails. */
  function ReadBlocks(rest: Content): Option<Content>
    decreases |rest|
  {
    if rest == [] then Some([])
    else
      var width := if |rest| < HEADER_BYTES then |rest| else HEADER_BYTES;
      var header := FromLittle(rest[..width]);
      var after := rest[width..];
      var size := header / 8;
      if header % 8 > 1 || |after| < size then None
      else if header % 2 == 1 then
        if |after| == size && width == HEADER_BYTES then Some(after) else None
      else
        match ReadBlocks(after[size..])
        case None => None
        case Some(more) => Some(after[..size] + more)
  }

  function ReadFrame(data: Content): Option<Content> {
    if |data| < 9 || data[..4] != MAGIC || data[4] != DESCRIPTOR then None
    else
      match ReadBlocks(data[9..])
      case None => None
      case Some(payload) => if |payload| == FromLittle(data[5..9]) then Some(payload) else None
  }

  /** `zstd_raw_payload`. */
  method ZstdRawPayload(data: Content) returns (r: Option<Content>)
    ensures r == ReadFrame(data)
  {
    hide ReadBlocks, FromLittle, Prepended;
    if |data| < 9 || data[..4] != MAGIC || data[4] != DESCRIPTOR {
      return None;
    }
    var size := FromLittle(data[5..9]);
    var offset := 9;
    var output: Content := [];
    var whole := ReadBlocks(data[9..]);
    PrependedNothing(whole);
    while offset < |data|
      invariant 9 <= offset
      invariant offset <= |data| ==> whole == Prepended(output, ReadBlocks(data[offset..]))
      invariant offset > |data| ==> whole == Some(output)
    {
      var rest := data[offset..];
      var width := if |rest| < HEADER_BYTES then |rest| else HEADER_BYTES;
      var header := FromLittle(rest[..width]);
      assert data[offset..offset + width] == rest[..width];
      var after := rest[width..];
      var last, blockSize := header % 2 == 1, header / 8;
      BlocksUnfold(output, rest, width, header);
      if header % 8 > 1 || |after| < blockSize {
        return None;
      }
      if last {
        if width != HEADER_BYTES || |after| != blockSize {
          return None;
        }
        output := output + after;
        break;
      }
      output := output + after[..blockSize];
      if width < HEADER_BYTES {
        assert after[blockSize..] == [];
        NoBlocks();
        PrependedEnd(output);
      } else {
        assert after[blockSize..] == data[offset + 3 + blockSize..];
      }
      offset := offset + 3 + blockSize;
    }
    if offset == |data| {
      NoBlocks();
      PrependedEnd(output);
    }
    return if |output| == size then Some(output) else None;
  }

  /** The next block, after bytes read before it. */
  lemma BlocksUnfold(before: Content, rest: Content, width: nat, header: nat)
    requires rest != [] && width == (if |rest| < HEADER_BYTES then |rest| else HEADER_BYTES)
    requires header == FromLittle(rest[..width])
    ensures var after := rest[width..];
      var whole := Prepended(before, ReadBlocks(rest));
      if header % 8 > 1 || |after| < header / 8 then whole == None
      else if header % 2 == 1 then
        whole == if |after| == header / 8 && width == HEADER_BYTES then Some(before + after) else None
      else whole == Prepended(before + after[..header / 8], ReadBlocks(after[header / 8..]))
  {
    hide FromLittle;
    var after := rest[width..];
    if header / 8 <= |after| {
      BlockStep(before, after[..header / 8], ReadBlocks(after[header / 8..]));
    }
  }

  /** A reader's result with bytes read before it. */
  function Prepended(before: Content, r: Option<Content>): Option<Content> {
    if r.None? then None else Some(before + r.value)
  }

  lemma PrependedNothing(r: Option<Content>)
    ensures Prepended([], r) == r
  {
    if r.Some? {
      assert [] + r.value == r.value;
    }
  }

  lemma PrependedEnd(before: Content)
    ensures Prepended(before, Some([])) == Some(before)
  {
    assert before + [] == before;
  }

  lemma BlockStep(before: Content, block: Content, r: Option<Content>)
    ensures Prepended(before, if r.None? then None else Some(block + r.value)) == Prepended(before + block, r)
  {
    if r.Some? {
      assert before + (block + r.value) == before + block + r.value;
    }
  }

  // ---- Properties ----

  /** A block's header fits its three bytes. */
  lemma HeaderFits(size: nat, last: bool)
    requires size < SIZE_LIMIT
    ensures BlockHeader(size, last) < Power(HEADER_BYTES)
    ensures FromLittle(LittleEndian(BlockHeader(size, last), HEADER_BYTES)) == BlockHeader(size, last)
  {
    assert Power(1) == 256 && Power(2) == 65536 && Power(3) == 16777216;
    LittleRoundTrip(BlockHeader(size, last), HEADER_BYTES);
  }

  lemma HeaderParts(size: nat, last: bool)
    ensures var header := BlockHeader(size, last);
      header / 8 == size && header % 8 == (if last then 1 else 0) && header % 2 == (if last then 1 else 0)
        && header / 2 % 4 == 0
  {
    var bit := if last then 1 else 0;
    ByEight(size, bit);
    ByTwo(4 * size, bit);
    ByFour(size);
    assert BlockHeader(size, last) == 8 * size + bit == 2 * (4 * size) + bit;
  }

  lemma ByEight(k: nat, bit: nat)
    requires bit < 8
    ensures (8 * k + bit) / 8 == k && (8 * k + bit) % 8 == bit
  {
  }

  lemma ByTwo(k: nat, bit: nat)
    requires bit < 2
    ensures (2 * k + bit) / 2 == k && (2 * k + bit) % 2 == bit
  {
  }

  lemma ByFour(k: nat)
    ensures (4 * k) % 4 == 0
  {
  }

  /** What the reader does at a block whose header is all there. */
  lemma ReadStep(rest: Content, header: nat, after: Content)
    requires |rest| >= HEADER_BYTES && header == FromLittle(rest[..HEADER_BYTES]) && after == rest[HEADER_BYTES..]
    requires header % 8 <= 1 && header / 8 <= |after|
    ensures ReadBlocks(rest) ==
      if header % 2 == 1 then (if |after| == header / 8 then Some(after) else None)
      else Prepended(after[..header / 8], ReadBlocks(after[header / 8..]))
  {
    hide FromLittle;
  }

  lemma ReadBlock(chunk: Content, last: bool, more: Content)
    requires |chunk| < SIZE_LIMIT
    ensures var rest := Block(chunk, last) + more;
      ReadBlocks(rest) ==
        if last then (if more == [] then Some(chunk) else None)
        else Prepended(chunk, ReadBlocks(more))
  {
    hide LittleEndian, FromLittle, ReadBlocks, BlockHeader, Power, Prepended;
    HeaderFits(|chunk|, last);
    HeaderParts(|chunk|, last);
    var header := LittleEndian(BlockHeader(|chunk|, last), HEADER_BYTES);
    var rest := Block(chunk, last) + more;
    BlockSlices(header, chunk, more);
    assert rest == header + chunk + more;
    ReadStep(rest, BlockHeader(|chunk|, last), chunk + more);
  }

  lemma BlockSlices(header: Content, chunk: Content, more: Content)
    requires |header| == HEADER_BYTES
    ensures var rest := header + chunk + more;
      && rest[..HEADER_BYTES] == header && rest[HEADER_BYTES..] == chunk + more
      && rest[HEADER_BYTES + |chunk|..] == more
    ensures (chunk + more)[..|chunk|] == chunk && (chunk + more)[|chunk|..] == more
    ensures |chunk + more| == |chunk| <==> more == []
    ensures more == [] ==> chunk + more == chunk
  {
  }

  lemma {:induction false} BlocksReadBack(data: Content)
    ensures ReadBlocks(Blocks(data)) == Some(data)
    decreases |data|
  {
    hide Block, ReadBlocks;
    if |data| <= MAX_BLOCK {
      ReadBlock(data, true, []);
      assert Block(data, true) + [] == Block(data, true);
    } else {
      BlocksReadBack(data[MAX_BLOCK..]);
      ReadBlock(data[..MAX_BLOCK], false, Blocks(data[MAX_BLOCK..]));
      assert data == data[..MAX_BLOCK] + data[MAX_BLOCK..];
    }
  }

  /** Reading a written frame gives the data back, for every size that can be written. */
  lemma FrameReadsBack(data: Content)
    requires Packable(data)
    ensures ReadFrame(Frame(data)) == Some(data)
  {
    hide Blocks, ReadBlocks, LittleEndian, FromLittle;
    BlocksReadBack(data);
    assert Power(1) == 256 && Power(2) == 65536 && Power(3) == 16777216 && Power(4) == 0x1_0000_0000;
    LittleRoundTrip(|data|, 4);
    var frame := Frame(data);
    assert frame[..4] == MAGIC && frame[4] == DESCRIPTOR;
    assert frame[5..9] == LittleEndian(|data|, 4) && frame[9..] == Blocks(data);
  }

  /** The headers a decoder meets: sizes and last bits, for as long as there are blocks. */
  datatype Header = Header(size: nat, last: bool, kind: nat)

  function Headers(rest: Content): Option<seq<Header>>
    decreases |rest|
  {
    if rest == [] then Some([])
    else if |rest| < HEADER_BYTES then None
    else
      var header := FromLittle(rest[..HEADER_BYTES]);
      var size := header / 8;
      if |rest| - HEADER_BYTES < size then None
      else
        match Headers(rest[HEADER_BYTES + size..])
        case None => None
        case Some(more) => Some([Header(size, header % 2 == 1, header / 2 % 4)] + more)
  }

  lemma HeadersOfBlock(chunk: Content, last: bool, more: Content)
    requires |chunk| < SIZE_LIMIT
    ensures Headers(Block(chunk, last) + more) ==
      if Headers(more).None? then None else Some([Header(|chunk|, last, 0)] + Headers(more).value)
  {
    hide LittleEndian, FromLittle, BlockHeader, Power;
    HeaderFits(|chunk|, last);
    HeaderParts(|chunk|, last);
    var header := LittleEndian(BlockHeader(|chunk|, last), HEADER_BYTES);
    BlockSlices(header, chunk, more);
    assert Block(chunk, last) + more == header + chunk + more;
  }

  /** As in section 3.1.1.2 of RFC 8878: raw blocks of at most 128 KiB, and exactly the final one
      carries the last bit. */
  ghost predicate WellBlocked(headers: seq<Header>) {
    && headers != []
    && (forall i | 0 <= i < |headers| :: headers[i].size <= 131_072 && headers[i].kind == 0)
    && (forall i | 0 <= i < |headers| :: headers[i].last <==> i == |headers| - 1)
  }

  lemma {:induction false} BlocksWellFormed(data: Content)
    ensures Headers(Blocks(data)).Some? && WellBlocked(Headers(Blocks(data)).value)
    ensures var headers := Headers(Blocks(data)).value;
      && (forall i | 0 <= i < |headers| - 1 :: headers[i].size == 131_072)
      && (data != [] ==> headers[|headers| - 1].size > 0)
    decreases |data|
  {
    hide Block, Headers;
    NoHeaders();
    if |data| <= MAX_BLOCK {
      HeadersOfBlock(data, true, []);
      assert Block(data, true) + [] == Block(data, true);
    } else {
      BlocksWellFormed(data[MAX_BLOCK..]);
      HeadersOfBlock(data[..MAX_BLOCK], false, Blocks(data[MAX_BLOCK..]));
      var more := Headers(Blocks(data[MAX_BLOCK..])).value;
      var all := [Header(MAX_BLOCK, false, 0)] + more;
      assert Headers(Blocks(data)).value == all;
      assert forall i | 1 <= i < |all| :: all[i] == more[i - 1];
    }
  }

  lemma NoHeaders()
    ensures Headers([]) == Some([])
  {
  }

  // ---- What the reader accepts ----

  /** Raw blocks of any size a header can hold, of which the last may be marked as such, or after
      which a header of zeros may be cut off. */
  datatype Spelling = Spelling(chunks: seq<Content>, marked: bool, cut: nat)

  predicate ValidSpelling(s: Spelling) {
    && (forall chunk | chunk in s.chunks :: |chunk| < SIZE_LIMIT)
    && s.cut < HEADER_BYTES
    && (s.marked ==> s.chunks != [] && s.cut == 0)
  }

  function PrintBlocks(chunks: seq<Content>, marked: bool): Content {
    if chunks == [] then [] else Block(chunks[0], marked && |chunks| == 1) + PrintBlocks(chunks[1..], marked)
  }

  function Print(s: Spelling): Content {
    PrintBlocks(s.chunks, s.marked) + Zeros(s.cut)
  }

  /** The bytes the blocks hold. */
  function Payload(chunks: seq<Content>): Content {
    if chunks == [] then [] else chunks[0] + Payload(chunks[1..])
  }

  lemma {:induction false} ZeroIsCut(b: Content)
    ensures FromLittle(b) == 0 <==> b == Zeros(|b|)
  {
    if b != [] {
      ZeroIsCut(b[1..]);
      assert b == [b[0]] + b[1..] && Zeros(|b|) == [0] + Zeros(|b| - 1);
    }
  }

  lemma ShortRead(rest: Content)
    requires 0 < |rest| < HEADER_BYTES
    ensures ReadBlocks(rest) == if FromLittle(rest) == 0 then Some([]) else None
  {
    hide FromLittle, ReadBlocks;
    var header, after := FromLittle(rest[..|rest|]), rest[|rest|..];
    assert rest[..|rest|] == rest && after == [];
    BlocksUnfold([], rest, |rest|, header);
    PrependedNothing(ReadBlocks(rest));
    if header == 0 {
      NoBlocks();
      assert after[header / 8..] == [] && [] + after[..header / 8] == [];
      PrependedNothing(Some([]));
    } else if header < 8 {
      assert header / 8 == 0 && header % 8 == header;
    }
  }

  lemma CutHeaderRead(rest: Content)
    requires |rest| < HEADER_BYTES
    ensures ReadBlocks(rest) == if rest == Zeros(|rest|) then Some([]) else None
  {
    hide FromLittle, ReadBlocks;
    if rest == [] {
      NoBlocks();
    } else {
      ZeroIsCut(rest);
      ShortRead(rest);
    }
  }

  lemma PrintFirst(chunk: Content, chunks: seq<Content>, marked: bool, cut: nat)
    requires marked && chunks == [] ==> cut == 0
    ensures var last := marked && chunks == [];
      && Print(Spelling([chunk] + chunks, marked, cut)) == Block(chunk, last) + Print(Spelling(chunks, marked, cut))
      && (last ==> Print(Spelling(chunks, marked, cut)) == [])
    ensures Payload([chunk] + chunks) == chunk + Payload(chunks)
  {
    hide Block;
    assert ([chunk] + chunks)[1..] == chunks;
  }

  lemma {:induction false} SpelledReads(s: Spelling)
    requires ValidSpelling(s)
    ensures ReadBlocks(Print(s)) == Some(Payload(s.chunks))
    decreases |s.chunks|
  {
    hide Block, ReadBlocks, Print, Payload, Zeros;
    if s.chunks == [] {
      OnlyCut(s);
    } else {
      var first, rest := s.chunks[0], s.chunks[1..];
      var more := Spelling(rest, s.marked && rest != [], s.cut);
      assert s.chunks == [first] + rest && first in s.chunks && forall chunk | chunk in rest :: chunk in s.chunks;
      PrintFirst(first, rest, s.marked, s.cut);
      ReadBlock(first, s.marked && rest == [], Print(Spelling(rest, s.marked, s.cut)));
      if s.marked && rest == [] {
        NoPayload();
        assert first + [] == first;
      } else {
        SpelledReads(more);
      }
    }
  }

  lemma NoPayload()
    ensures Payload([]) == []
  {
  }

  lemma OnlyCut(s: Spelling)
    requires ValidSpelling(s) && s.chunks == []
    ensures ReadBlocks(Print(s)) == Some([]) && Payload(s.chunks) == []
  {
    hide ReadBlocks;
    assert Print(s) == Zeros(s.cut);
    CutHeaderRead(Print(s));
  }

  lemma HeaderSpelled(rest: Content)
    requires |rest| >= HEADER_BYTES && FromLittle(rest[..HEADER_BYTES]) % 8 <= 1
    ensures var header := FromLittle(rest[..HEADER_BYTES]);
      && header / 8 < SIZE_LIMIT
      && rest[..HEADER_BYTES] == LittleEndian(BlockHeader(header / 8, header % 2 == 1), HEADER_BYTES)
  {
    hide LittleEndian, FromLittle, Power;
    var header := FromLittle(rest[..HEADER_BYTES]);
    LittleSpelled(rest[..HEADER_BYTES]);
    PowerOfThree();
    HeaderHalves(header);
  }

  lemma PowerOfThree()
    ensures Power(HEADER_BYTES) == 8 * SIZE_LIMIT
  {
    assert Power(1) == 256 && Power(2) == 65536;
  }

  lemma HeaderHalves(header: nat)
    requires header % 8 <= 1
    ensures BlockHeader(header / 8, header % 2 == 1) == header
    ensures header < 8 * SIZE_LIMIT ==> header / 8 < SIZE_LIMIT
  {
    var size, bit := header / 8, header % 8;
    assert header == 8 * size + bit == 2 * (4 * size) + bit;
    ByTwo(4 * size, bit);
  }

  lemma {:induction false} ReadIsSpelled(rest: Content) returns (s: Spelling)
    requires ReadBlocks(rest).Some?
    ensures ValidSpelling(s) && Print(s) == rest && ReadBlocks(rest) == Some(Payload(s.chunks))
    decreases |rest|
  {
    hide ReadBlocks, FromLittle, LittleEndian, Print, Payload, Zeros, BlockHeader;
    if |rest| < HEADER_BYTES {
      CutHeaderRead(rest);
      s := Spelling([], false, |rest|);
      OnlyCut(s);
      PrintedCut(|rest|);
    } else {
      var header, after := FromLittle(rest[..HEADER_BYTES]), rest[HEADER_BYTES..];
      ReadChecks(rest);
      ReadStep(rest, header, after);
      HeaderSpelled(rest);
      if header % 2 == 1 {
        s := Spelling([after], true, 0);
        PrintFirst(after, [], true, 0);
        NoPayload();
        assert [after] + [] == [after] && after + [] == after;
      } else {
        var chunk := after[..header / 8];
        var more := ReadIsSpelled(after[header / 8..]);
        s := Spelling([chunk] + more.chunks, more.marked, more.cut);
        PrintFirst(chunk, more.chunks, more.marked, more.cut);
      }
    }
  }

  lemma PrintedCut(n: nat)
    ensures Print(Spelling([], false, n)) == Zeros(n)
  {
  }

  lemma ReadChecks(rest: Content)
    requires |rest| >= HEADER_BYTES && ReadBlocks(rest).Some?
    ensures FromLittle(rest[..HEADER_BYTES]) % 8 <= 1
    ensures FromLittle(rest[..HEADER_BYTES]) / 8 <= |rest[HEADER_BYTES..]|
  {
    hide FromLittle;
  }

  /** The reader accepts exactly the spelled blocks, as their payload. */
  lemma BlocksReadIff(rest: Content, d: Content)
    ensures ReadBlocks(rest) == Some(d) <==> exists s :: ValidSpelling(s) && Print(s) == rest && Payload(s.chunks) == d
  {
    hide ReadBlocks, ValidSpelling, Print, Payload;
    if ReadBlocks(rest) == Some(d) {
      var s := ReadIsSpelled(rest);
    }
    forall s | ValidSpelling(s) && Print(s) == rest && Payload(s.chunks) == d ensures ReadBlocks(rest) == Some(d) {
      SpelledReads(s);
    }
  }

  lemma FrameParts(size: nat, blocks: Content)
    requires size < 0x1_0000_0000
    ensures ReadFrame(Prefix(size) + blocks) ==
      if ReadBlocks(blocks).Some? && |ReadBlocks(blocks).value| == size then ReadBlocks(blocks) else None
  {
    hide ReadBlocks, LittleEndian, FromLittle;
    assert Power(1) == 256 && Power(2) == 65536 && Power(3) == 16777216 && Power(4) == 0x1_0000_0000;
    LittleRoundTrip(size, 4);
    var frame := Prefix(size) + blocks;
    assert frame[..4] == MAGIC && frame[4] == DESCRIPTOR;
    assert frame[5..9] == LittleEndian(size, 4) && frame[9..] == blocks;
  }

  lemma FrameSpelled(data: Content)
    requires ReadFrame(data).Some?
    ensures |data| >= 9
    ensures var d := ReadFrame(data).value;
      Packable(d) && data == Prefix(|d|) + data[9..] && ReadBlocks(data[9..]) == Some(d)
  {
    hide ReadBlocks, LittleEndian, FromLittle, Power;
    LittleSpelled(data[5..9]);
    PowerOfFour();
    assert data == data[..4] + [data[4]] + data[5..9] + data[9..];
  }

  lemma PowerOfFour()
    ensures Power(4) == 0x1_0000_0000
  {
    assert Power(1) == 256 && Power(2) == 65536 && Power(3) == 16777216;
  }

  /** The frames the reader accepts: the right prefix for the payload, and then spelled blocks. */
  lemma FrameAcceptedIff(data: Content, d: Content)
    ensures ReadFrame(data) == Some(d) <==>
      Packable(d) && exists s :: ValidSpelling(s) && data == Prefix(|d|) + Print(s) && Payload(s.chunks) == d
  {
    hide ReadBlocks, ReadFrame, ValidSpelling, Print, Payload, Prefix;
    if ReadFrame(data) == Some(d) {
      FrameSpelled(data);
      var s := ReadIsSpelled(data[9..]);
    }
    forall s | Packable(d) && ValidSpelling(s) && data == Prefix(|d|) + Print(s) && Payload(s.chunks) == d
      ensures ReadFrame(data) == Some(d)
    {
      SpelledReads(s);
      FrameParts(|d|, Print(s));
    }
  }

  // ---- Accepted frames that are not well-formed ----

  /** The headers of spelled blocks, unless one is cut. */
  function SpelledHeaders(chunks: seq<Content>, marked: bool): seq<Header> {
    seq(|chunks|, i requires 0 <= i < |chunks| => Header(|chunks[i]|, marked && i == |chunks| - 1, 0))
  }

  lemma {:induction false} HeadersOfSpelling(s: Spelling)
    requires ValidSpelling(s)
    ensures Headers(Print(s)) == if s.cut > 0 then None else Some(SpelledHeaders(s.chunks, s.marked))
    decreases |s.chunks|
  {
    hide Block, Headers, Print, Zeros, Payload, SpelledHeaders;
    if s.chunks == [] {
      PrintedCut(s.cut);
      CutHeaders(s.cut);
      SpelledCons([], [], s.marked);
    } else {
      var first, rest := s.chunks[0], s.chunks[1..];
      var last := s.marked && rest == [];
      assert s.chunks == [first] + rest && first in s.chunks && forall chunk | chunk in rest :: chunk in s.chunks;
      PrintFirst(first, rest, s.marked, s.cut);
      SpelledCons(first, rest, s.marked);
      HeadersOfBlock(first, last, Print(Spelling(rest, s.marked, s.cut)));
      if last {
        NoHeaders();
      } else {
        HeadersOfSpelling(Spelling(rest, s.marked, s.cut));
      }
    }
  }

  lemma SpelledCons(first: Content, rest: seq<Content>, marked: bool)
    ensures SpelledHeaders([first] + rest, marked) ==
      [Header(|first|, marked && rest == [], 0)] + SpelledHeaders(rest, marked)
    ensures SpelledHeaders([], marked) == []
  {
  }

  lemma CutHeaders(n: nat)
    requires n < HEADER_BYTES
    ensures Headers(Zeros(n)) == if n > 0 then None else Some([])
  {
  }

  /** Of the spelled blocks, those with a last block marked and none over 128 KiB are well-formed. */
  lemma SpelledWellFormedIff(s: Spelling)
    requires ValidSpelling(s)
    ensures Headers(Print(s)).Some? && WellBlocked(Headers(Print(s)).value) <==>
      s.marked && forall chunk | chunk in s.chunks :: |chunk| <= 131_072
  {
    hide Headers, Print;
    HeadersOfSpelling(s);
    var headers := SpelledHeaders(s.chunks, s.marked);
    assert forall i | 0 <= i < |headers| :: headers[i].size == |s.chunks[i]| && s.chunks[i] in s.chunks;
    if s.cut == 0 && WellBlocked(headers) {
      assert headers[|headers| - 1].last;
      forall chunk | chunk in s.chunks ensures |chunk| <= MAX_BLOCK {
        var i :| 0 <= i < |s.chunks| && s.chunks[i] == chunk;
        assert headers[i].size == |chunk|;
      }
    }
  }

  /** The reader does not insist on a last block: it also accepts a frame whose blocks just stop, or
      are followed by the zeros of a cut header. */
  lemma UnfinishedFrameAccepted(chunk: Content, cut: nat)
    requires |chunk| < SIZE_LIMIT && cut < HEADER_BYTES
    ensures ReadFrame(Prefix(|chunk|) + (Block(chunk, false) + Zeros(cut))) == Some(chunk)
    ensures cut == 0 ==> Headers(Block(chunk, false) + Zeros(cut)) == Some([Header(|chunk|, false, 0)])
  {
    hide Block, Print, Payload, ReadBlocks, Headers, Zeros, Prefix;
    var s := Spelling([chunk], false, cut);
    PrintFirst(chunk, [], false, cut);
    PrintedCut(cut);
    NoPayload();
    assert [chunk] + [] == [chunk] && chunk + [] == chunk;
    FrameAcceptedIff(Prefix(|chunk|) + Print(s), chunk);
    HeadersOfSpelling(s);
    assert SpelledHeaders([chunk], false) == [Header(|chunk|, false, 0)];
  }

  lemma NoBlocks()
    ensures ReadBlocks([]) == Some([])
  {
  }
}
