/** Reading an RPM header back: the index from its fixed places, each value from its offset. */
module RpmReading {
  import opened Wrappers
  import opened Digests
  import opened Integers
  import opened RpmHeaders

  // ---- Values at their offsets ----

  function UnpackInts(data: Content, count: nat, width: nat): Option<seq<nat>> {
    if count == 0 then Some([])
    else if |data| < width then None
    else
      match UnpackInts(data[width..], count - 1, width)
      case None => None
      case Some(more) => Some([FromBig(data[..width])] + more)
  }

  /** The bytes up to the first NUL, and what follows it. */
  function UnpackText(data: Content): (r: Option<(Content, Content)>)
    ensures r.Some? ==> 0 !in r.value.0 && data == r.value.0 + [0] + r.value.1
  {
    if data == [] then None
    else if data[0] == 0 then Some(([], data[1..]))
    else
      match UnpackText(data[1..])
      case None => None
      case Some((text, rest)) => Some(([data[0]] + text, rest))
  }

  function UnpackTexts(data: Content, count: nat): Option<seq<Content>>
    decreases count
  {
    if count == 0 then Some([])
    else
      match UnpackText(data)
      case None => None
      case Some((text, rest)) =>
        match UnpackTexts(rest, count - 1)
        case None => None
        case Some(more) => Some([text] + more)
  }

  /** The value an index points at in a data section. */
  function ReadValue(index: Index, data: Content): Option<Value> {
    if index.offset > |data| then None
    else
      var rest := data[index.offset..];
      if index.kind in {2, 7} then if |rest| < index.count then None else Some(Bytes(rest[..index.count]))
      else if index.kind in {3, 4, 5} then
        (match UnpackInts(rest, index.count, Width(index.kind))
         case None => None
         case Some(ints) => Some(Ints(ints)))
      else if index.kind == 6 then
        (match UnpackText(rest)
         case None => None
         case Some((text, _)) => Some(Text(text)))
      else if index.kind in {8, 9} then
        (match UnpackTexts(rest, index.count)
         case None => None
         case Some(texts) => Some(Texts(texts)))
      else None
  }

  /** Texts end at their first NUL, so only those without one are what they were. */
  predicate NulFree(value: Value) {
    match value
    case Text(text) => 0 !in text
    case Texts(texts) => forall text | text in texts :: 0 !in text
    case _ => true
  }

  lemma {:induction false} PackIntsCons(ints: seq<nat>, width: nat)
    requires ints != []
    ensures PackInts(ints, width) == BigEndian(ints[0], width) + PackInts(ints[1..], width)
  {
    hide BigEndian;
    var n := |ints| - 1;
    var first, last := BigEndian(ints[0], width), BigEndian(ints[n], width);
    if n == 0 {
      assert ints[..0] == [] && ints[1..] == [];
      assert [] + first == first + [];
    } else {
      PackIntsCons(ints[..n], width);
      var middle := ints[1..][..n - 1];
      assert ints[..n][1..] == middle;
      assert (first + PackInts(middle, width)) + last == first + (PackInts(middle, width) + last);
    }
  }

  lemma {:induction false} IntsReadBack(ints: seq<nat>, width: nat, more: Content)
    requires Fits(ints, width)
    ensures UnpackInts(PackInts(ints, width) + more, |ints|, width) == Some(ints)
  {
    hide BigEndian, FromBig, PackInts;
    if ints != [] {
      PackIntsCons(ints, width);
      assert ints[0] in ints && forall n | n in ints[1..] :: n in ints;
      IntsReadBack(ints[1..], width, more);
      BigRoundTrip(ints[0], width);
      var data := PackInts(ints, width) + more;
      assert data[..width] == BigEndian(ints[0], width);
      assert data[width..] == PackInts(ints[1..], width) + more;
      assert ints == [ints[0]] + ints[1..];
    }
  }

  lemma {:induction false} TextReadsBack(text: Content, more: Content)
    ensures 0 !in text ==> UnpackText(text + [0] + more) == Some((text, more))
    ensures 0 in text ==> UnpackText(text + [0] + more).Some? && UnpackText(text + [0] + more).value.0 != text
  {
    var data := text + [0] + more;
    if text == [] {
      assert data[0] == 0 && data[1..] == more;
    } else {
      assert data[0] == text[0] && data[1..] == text[1..] + [0] + more;
      assert 0 in text <==> text[0] == 0 || 0 in text[1..];
      assert text == [text[0]] + text[1..];
      TextReadsBack(text[1..], more);
    }
  }

  lemma {:induction false} TextsReadBack(texts: seq<Content>, more: Content)
    ensures UnpackTexts(PackTexts(texts) + more, |texts|) == Some(texts) <==> forall text | text in texts :: 0 !in text
  {
    hide UnpackText;
    if texts != [] {
      var rest := PackTexts(texts[1..]) + more;
      assert PackTexts(texts) + more == texts[0] + [0] + rest;
      TextReadsBack(texts[0], rest);
      TextsReadBack(texts[1..], more);
      assert forall text :: text in texts <==> text == texts[0] || text in texts[1..];
      var read := UnpackTexts(PackTexts(texts) + more, |texts|);
      assert read.Some? ==>
        read.value[1..] == UnpackTexts(UnpackText(texts[0] + [0] + rest).value.1, |texts| - 1).value;
      assert texts == [texts[0]] + texts[1..];
    }
  }

  lemma EncodedReadsBack(entry: Entry, offset: nat, data: Content)
    requires WellTyped(entry) && offset + |Encoded(entry)| <= |data|
    requires data[offset..offset + |Encoded(entry)|] == Encoded(entry)
    ensures ReadValue(Index(entry.tag, entry.kind, offset, Count(entry)), data) == Some(entry.value) <==>
      NulFree(entry.value)
  {
    hide UnpackInts, UnpackText, UnpackTexts, PackInts, PackTexts, Fits;
    var rest := data[offset..];
    var more := rest[|Encoded(entry)|..];
    assert rest == Encoded(entry) + more;
    match entry.value
    case Bytes(bytes) => assert rest[..|bytes|] == bytes;
    case Ints(ints) => IntsReadBack(ints, Width(entry.kind), more);
    case Text(text) => TextReadsBack(text, more);
    case Texts(texts) => TextsReadBack(texts, more);
  }

  /** Every value can be read back at its recorded offset, but for texts with a NUL in them. */
  lemma ValueReadsBack(entries: seq<Entry>, i: nat)
    requires i < |entries| && WellTyped(entries[i])
    ensures ReadValue(LayOut(entries).indexes[i], LayOut(entries).data) == Some(entries[i].value) <==>
      NulFree(entries[i].value)
  {
    hide WellTyped, Encoded, Count, ReadValue, LayOut, NulFree;
    ValuePlaced(entries, i);
    EncodedReadsBack(entries[i], Start(entries, i), LayOut(entries).data);
  }

  // ---- The whole header ----

  function ReadIndex(bytes: Content): Index
    requires |bytes| == INDEX_BYTES
  {
    Index(FromBig(bytes[..4]), FromBig(bytes[4..8]), FromBig(bytes[8..12]), FromBig(bytes[12..]))
  }

  function ReadIndexes(bytes: Content, count: nat): seq<Index>
    requires |bytes| == count * INDEX_BYTES
  {
    seq(count, i requires 0 <= i < count =>
      assert i * INDEX_BYTES + INDEX_BYTES <= |bytes|;
      ReadIndex(bytes[i * INDEX_BYTES..i * INDEX_BYTES + INDEX_BYTES]))
  }

  function ReadHeader(bytes: Content): Option<Layout> {
    if |bytes| < 16 || bytes[..8] != HEADER_MAGIC then None
    else
      var count, size := FromBig(bytes[8..12]), FromBig(bytes[12..16]);
      if |bytes| != 16 + count * INDEX_BYTES + size then None
      else Some(Layout(bytes[16 + count * INDEX_BYTES..], ReadIndexes(bytes[16..16 + count * INDEX_BYTES], count)))
  }

  lemma WordReadsBack(n: nat)
    requires n < WORD
    ensures FromBig(BigEndian(n, 4)) == n
  {
    assert Power(1) == 256 && Power(2) == 65536 && Power(3) == 16777216 && Power(4) == WORD;
    BigRoundTrip(n, 4);
  }

  lemma IndexReadsBack(index: Index)
    requires PackableIndex(index)
    ensures |PackIndex(index)| == INDEX_BYTES && ReadIndex(PackIndex(index)) == index
  {
    hide BigEndian, FromBig;
    WordReadsBack(index.tag);
    WordReadsBack(index.kind);
    WordReadsBack(index.offset);
    WordReadsBack(index.count);
    var bytes := PackIndex(index);
    assert bytes[..4] == BigEndian(index.tag, 4) && bytes[4..8] == BigEndian(index.kind, 4);
    assert bytes[8..12] == BigEndian(index.offset, 4) && bytes[12..] == BigEndian(index.count, 4);
  }

  lemma {:induction false} IndexesReadBack(indexes: seq<Index>)
    requires forall index | index in indexes :: PackableIndex(index)
    ensures |PackIndexes(indexes)| == |indexes| * INDEX_BYTES
    ensures ReadIndexes(PackIndexes(indexes), |indexes|) == indexes
  {
    hide PackIndex, ReadIndex, PackableIndex;
    if indexes != [] {
      var n := |indexes| - 1;
      assert indexes[n] in indexes && forall index | index in indexes[..n] :: index in indexes;
      IndexesReadBack(indexes[..n]);
      IndexReadsBack(indexes[n]);
      var before := PackIndexes(indexes[..n]);
      ReadIndexesSnoc(before, PackIndex(indexes[n]), n);
      assert indexes == indexes[..n] + [indexes[n]];
    }
  }

  lemma ReadIndexesSnoc(before: Content, last: Content, n: nat)
    requires |before| == n * INDEX_BYTES && |last| == INDEX_BYTES
    ensures ReadIndexes(before + last, n + 1) == ReadIndexes(before, n) + [ReadIndex(last)]
  {
    hide ReadIndex;
    var bytes := before + last;
    forall i | 0 <= i < n ensures ReadIndexes(bytes, n + 1)[i] == ReadIndexes(before, n)[i] {
      var from := i * INDEX_BYTES;
      assert from + INDEX_BYTES <= |before|;
      assert bytes[from..from + INDEX_BYTES] == before[from..from + INDEX_BYTES];
    }
    assert bytes[n * INDEX_BYTES..n * INDEX_BYTES + INDEX_BYTES] == last;
  }

  /** A written header reads back as its layout. */
  lemma HeaderReadsBack(layout: Layout)
    requires PackableLayout(layout)
    ensures ReadHeader(PackHeader(layout)) == Some(layout)
  {
    hide BigEndian, FromBig, PackIndexes, ReadIndexes, PackableIndex;
    WordReadsBack(|layout.indexes|);
    WordReadsBack(|layout.data|);
    IndexesReadBack(layout.indexes);
    var bytes, end := PackHeader(layout), 16 + |layout.indexes| * INDEX_BYTES;
    assert bytes[..8] == HEADER_MAGIC;
    assert bytes[8..12] == BigEndian(|layout.indexes|, 4) && bytes[12..16] == BigEndian(|layout.data|, 4);
    assert bytes[16..end] == PackIndexes(layout.indexes) && bytes[end..] == layout.data;
  }
}
