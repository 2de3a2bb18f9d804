/** RPM headers: a data section of aligned values and an index of where each one is. */
module RpmHeaders {
  import opened Wrappers
  import opened Digests
  import opened Integers

  const HEADER_MAGIC: Content := [0x8E, 0xAD, 0xE8, 0x01, 0, 0, 0, 0]
  const INDEX_BYTES := 16

  /** The Python value of an entry, by the shape its kind takes. Text is in its UTF-8 encoding. */
  datatype Value = Bytes(bytes: Content) | Ints(ints: seq<nat>) | Text(text: Content) | Texts(texts: seq<Content>)

  datatype Entry = Entry(tag: nat, kind: nat, value: Value)

  datatype Index = Index(tag: nat, kind: nat, offset: nat, count: nat)

  /** The alignment of a kind; the header data has none for kinds outside 1 to 9. */
  function Alignment(kind: nat): (a: nat)
    ensures a == 1 || a == 2 || a == 4 || a == 8
  {
    if kind == 3 then 2 else if kind == 4 then 4 else if kind == 5 then 8 else 1
  }

  /** The bytes of one integer of a kind; zero for kinds that hold none. */
  function Width(kind: nat): nat {
    if kind == 3 then 2 else if kind == 4 then 4 else if kind == 5 then 8 else 0
  }

  function PackInts(ints: seq<nat>, width: nat): Content {
    if ints == [] then [] else PackInts(ints[..|ints| - 1], width) + BigEndian(ints[|ints| - 1], width)
  }

  function PackTexts(texts: seq<Content>): Content {
    if texts == [] then [] else texts[0] + [0] + PackTexts(texts[1..])
  }

  predicate Fits(ints: seq<nat>, width: nat) {
    forall n | n in ints :: n < Power(width)
  }

  /** The kinds that can be written and the values they take. Kind 1 has an alignment but no
      encoding, and kinds outside 1 to 9 have neither. */
  predicate WellTyped(entry: Entry) {
    match entry.value
    case Bytes(_) => entry.kind in {2, 7}
    case Ints(ints) => entry.kind in {3, 4, 5} && Fits(ints, Width(entry.kind))
    case Text(_) => entry.kind == 6
    case Texts(_) => entry.kind in {8, 9}
  }

  function Encoded(entry: Entry): Content {
    match entry.value
    case Bytes(bytes) => bytes
    case Ints(ints) => PackInts(ints, Width(entry.kind))
    case Text(text) => text + [0]
    case Texts(texts) => PackTexts(texts)
  }

  function Count(entry: Entry): nat {
    match entry.value
    case Bytes(bytes) => |bytes|
    case Ints(ints) => |ints|
    case Text(_) => 1
    case Texts(texts) => |texts|
  }

  /** `(-size) % alignment`. */
  function Gap(size: nat, alignment: nat): (g: nat)
    requires alignment == 1 || alignment == 2 || alignment == 4 || alignment == 8
    ensures g < alignment && (size + g) % alignment == 0
  {
    RoundUp(size, alignment);
    if size % alignment == 0 then 0 else alignment - size % alignment
  }

  lemma RoundUp(size: nat, alignment: nat)
    requires alignment == 1 || alignment == 2 || alignment == 4 || alignment == 8
    ensures (size + (alignment - size % alignment)) % alignment == 0
  {
    if alignment == 2 {
      RoundUpTwo(size);
    } else if alignment == 4 {
      RoundUpFour(size);
    } else if alignment == 8 {
      RoundUpEight(size);
    }
  }

  lemma RoundUpTwo(size: nat)
    ensures (size + (2 - size % 2)) % 2 == 0
  {
    assert size + (2 - size % 2) == 2 * (size / 2 + 1);
  }

  lemma RoundUpFour(size: nat)
    ensures (size + (4 - size % 4)) % 4 == 0
  {
    assert size + (4 - size % 4) == 4 * (size / 4 + 1);
  }

  lemma RoundUpEight(size: nat)
    ensures (size + (8 - size % 8)) % 8 == 0
  {
    assert size + (8 - size % 8) == 8 * (size / 8 + 1);
  }

  // ---- The layout ----

  datatype Layout = Layout(data: Content, indexes: seq<Index>)

  function AddEntry(layout: Layout, entry: Entry): Layout {
    var padded := layout.data + Zeros(Gap(|layout.data|, Alignment(entry.kind)));
    Layout(padded + Encoded(entry), layout.indexes + [Index(entry.tag, entry.kind, |padded|, Count(entry))])
  }

  function LayOut(entries: seq<Entry>): (layout: Layout)
    ensures |layout.indexes| == |entries|
  {
    if entries == [] then Layout([], [])
    else AddEntry(LayOut(entries[..|entries| - 1]), entries[|entries| - 1])
  }

  const WORD := 0x1_0000_0000

  /** `struct.pack(">IIII", …)` takes only 32-bit words. */
  predicate PackableIndex(index: Index) {
    index.tag < WORD && index.kind < WORD && index.offset < WORD && index.count < WORD
  }

  function PackIndex(index: Index): Content {
    BigEndian(index.tag, 4) + BigEndian(index.kind, 4) + BigEndian(index.offset, 4) + BigEndian(index.count, 4)
  }

  function PackIndexes(indexes: seq<Index>): Content {
    if indexes == [] then [] else PackIndexes(indexes[..|indexes| - 1]) + PackIndex(indexes[|indexes| - 1])
  }

  predicate PackableLayout(layout: Layout) {
    |layout.indexes| < WORD && |layout.data| < WORD && forall index | index in layout.indexes :: PackableIndex(index)
  }

  function PackHeader(layout: Layout): Content {
    HEADER_MAGIC + BigEndian(|layout.indexes|, 4) + BigEndian(|layout.data|, 4) + PackIndexes(layout.indexes) +
      layout.data
  }

  lemma LayOutStep(entries: seq<Entry>, i: nat)
    requires i < |entries|
    ensures LayOut(entries[..i + 1]) == AddEntry(LayOut(entries[..i]), entries[i])
  {
    hide AddEntry;
    assert entries[..i + 1][..i] == entries[..i];
  }

  lemma PackIndexesStep(indexes: seq<Index>, i: nat)
    requires i < |indexes|
    ensures PackIndexes(indexes[..i + 1]) == PackIndexes(indexes[..i]) + PackIndex(indexes[i])
  {
    hide PackIndex;
    assert indexes[..i + 1][..i] == indexes[..i];
  }

  lemma NothingPacked()
    ensures LayOut([]) == Layout([], []) && PackIndexes([]) == []
  {
  }

  /** `rpm_header`; None stands for each of its exceptions. */
  method RpmHeader(entries: seq<Entry>) returns (r: Option<Content>)
    ensures r.Some? <==> (forall entry | entry in entries :: WellTyped(entry)) && PackableLayout(LayOut(entries))
    ensures r.Some? ==> r.value == PackHeader(LayOut(entries))
  {
    hide WellTyped, Encoded, Count, Gap, Alignment, PackableIndex, PackIndex, BigEndian, Zeros, LayOut, PackIndexes;
    NothingPacked();
    var data: Content := [];
    var indexes: seq<Index> := [];
    var dataSize := 0;
    var i := 0;
    while i < |entries|
      invariant 0 <= i <= |entries| && dataSize == |data|
      invariant forall j | 0 <= j < i :: WellTyped(entries[j])
      invariant Layout(data, indexes) == LayOut(entries[..i])
    {
      var entry := entries[i];
      assert entry in entries;
      if !WellTyped(entry) {
        return None;
      }
      var padding := Gap(dataSize, Alignment(entry.kind));
      data := data + Zeros(padding);
      dataSize := dataSize + padding;
      var offset := dataSize;
      var encoded := Encoded(entry);
      data := data + encoded;
      dataSize := dataSize + |encoded|;
      indexes := indexes + [Index(entry.tag, entry.kind, offset, Count(entry))];
      LayOutStep(entries, i);
      i := i + 1;
    }
    assert entries[..i] == entries;
    var indexData: Content := [];
    i := 0;
    while i < |indexes|
      invariant 0 <= i <= |indexes| && indexData == PackIndexes(indexes[..i])
      invariant forall j | 0 <= j < i :: PackableIndex(indexes[j])
    {
      assert indexes[i] in indexes;
      if !PackableIndex(indexes[i]) {
        return None;
      }
      PackIndexesStep(indexes, i);
      indexData := indexData + PackIndex(indexes[i]);
      i := i + 1;
    }
    assert indexes[..i] == indexes;
    if |indexes| >= WORD || |data| >= WORD {
      return None;
    }
    return Some(HEADER_MAGIC + BigEndian(|indexes|, 4) + BigEndian(|data|, 4) + indexData + data);
  }

  // ---- Where the values are ----

  lemma {:induction false} LayOutPrefix(entries: seq<Entry>, k: nat)
    requires k <= |entries|
    ensures LayOut(entries[..k]).data <= LayOut(entries).data
    ensures LayOut(entries[..k]).indexes == LayOut(entries).indexes[..k]
  {
    hide Encoded, Count, Gap, Alignment;
    if k == |entries| {
      assert entries[..k] == entries;
    } else {
      var shorter := entries[..|entries| - 1];
      LayOutPrefix(shorter, k);
      assert shorter[..k] == entries[..k];
    }
  }

  /** Where the `i`th value begins and ends. */
  function Start(entries: seq<Entry>, i: nat): nat
    requires i < |entries|
  {
    LayOut(entries).indexes[i].offset
  }

  function End(entries: seq<Entry>, i: nat): nat
    requires i < |entries|
  {
    Start(entries, i) + |Encoded(entries[i])|
  }

  lemma AlignmentTells(offset: nat, kind: nat)
    requires offset % Alignment(kind) == 0
    ensures kind == 3 ==> offset % 2 == 0
    ensures kind == 4 ==> offset % 4 == 0
    ensures kind == 5 ==> offset % 8 == 0
  {
  }

  /** Each value stands inside the data section at its recorded offset, which is aligned to 2, 4
      and 8 bytes for the integer kinds, and its index records its tag, kind and count. */
  lemma {:induction false} ValuePlaced(entries: seq<Entry>, i: nat)
    requires i < |entries|
    ensures var layout := LayOut(entries);
      && (entries[i].kind == 3 ==> Start(entries, i) % 2 == 0)
      && (entries[i].kind == 4 ==> Start(entries, i) % 4 == 0)
      && (entries[i].kind == 5 ==> Start(entries, i) % 8 == 0)
      && End(entries, i) <= |layout.data|
      && layout.data[Start(entries, i)..End(entries, i)] == Encoded(entries[i])
      && layout.indexes[i] == Index(entries[i].tag, entries[i].kind, Start(entries, i), Count(entries[i]))
    ensures End(entries, i) == |LayOut(entries[..i + 1]).data|
    ensures |LayOut(entries[..i]).data| <= Start(entries, i)
  {
    hide Encoded, Count, Gap, Alignment;
    var upTo := entries[..i + 1];
    LayOutPrefix(entries, i + 1);
    AlignmentTells(Start(entries, i), entries[i].kind);
    assert upTo[..i] == entries[..i];
    assert LayOut(upTo).indexes[i] == LayOut(entries).indexes[..i + 1][i] == LayOut(entries).indexes[i];
  }

  /** No two values overlap: each begins after the ones before it end. */
  lemma ValuesDisjoint(entries: seq<Entry>, i: nat, j: nat)
    requires i < j < |entries|
    ensures End(entries, i) <= Start(entries, j)
  {
    hide Encoded;
    ValuePlaced(entries, i);
    ValuePlaced(entries, j);
    assert entries[..j][..i + 1] == entries[..i + 1];
    LayOutPrefix(entries[..j], i + 1);
  }
}
