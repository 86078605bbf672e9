/**
 * Reading back what `Serialize` writes.  A table whose subtables each say
 * their own index format and hold numGlyphs + 1 offsets, and whose image
 * stays below 2^31 bytes (so that no `(int)` cast of an offset turns
 * negative), reads back as the table `Serialize` leaves, without the
 * sections, which only `EBDT`'s `Deserialize` attaches.
 */
module EblcRoundTrip {
  import opened Wrappers
  import opened Bytes
  import opened Records
  import opened Eblc
  import opened EblcRead
  import BufferReaders
  import FixedTable
  import RecordArrays
  import Slots
  import Words
  import Ebdt
  import EbdtRead
  import EbdtRoundTrip

  /** x lies in b from p on. */
  predicate Within(b: seq<byte>, p: nat, x: seq<byte>)
  {
    p + |x| <= |b| && forall k {:trigger x[k]} :: 0 <= k < |x| ==> b[p + k] == x[k]
  }

  lemma {:induction false} WithinSlice(b: seq<byte>, p: nat, x: seq<byte>)
    requires Within(b, p, x)
    ensures b[p..p + |x|] == x
  {
  }

  lemma {:induction false} WithinSplit(b: seq<byte>, p: nat, x: seq<byte>, y: seq<byte>)
    requires Within(b, p, x + y)
    ensures Within(b, p, x) && Within(b, p + |x|, y)
  {
    assert forall k :: 0 <= k < |x| ==> x[k] == (x + y)[k];
    assert forall k :: 0 <= k < |y| ==> y[k] == (x + y)[|x| + k];
  }

  lemma {:induction false} WithinInner(b: seq<byte>, p: nat, x: seq<byte>, q: nat, y: seq<byte>)
    requires Within(b, p, x) && Within(x, q, y)
    ensures Within(b, p + q, y)
  {
    assert forall k {:trigger y[k]} :: 0 <= k < |y| ==> y[k] == x[q + k] == b[p + q + k];
  }

  /** What lies in b from p on lies at the start of b's suffix from p. */
  lemma {:induction false} WithinSuffix(b: seq<byte>, p: nat, q: nat, x: seq<byte>)
    requires Within(b, p + q, x)
    ensures Within(b[p..], q, x)
  {
    assert forall k :: 0 <= k < |x| ==> x[k] == b[p + q + k] == b[p..][q + k];
  }

  // ------------------------------------------------------------ what reads back

  /** A subtable `Serialize` writes so that it reads back: its header names its body's format, and it has numGlyphs + 1 offsets. */
  predicate WellFormedSub(s: IndexSubtable)
  {
    && s.header.indexFormat == IndexFormat(s.body)
    && match s.body
       case Offsets32(o) => |o| == NumGlyphs(s.lookup) + 1
       case Offsets16(o) => |o| == NumGlyphs(s.lookup) + 1
       case Monospace(_, _) => true
  }

  predicate WellFormed(t: EblcTable)
  {
    && GetSize(t) < 0x8000_0000
    && forall i, j :: 0 <= i < |t.sizes| && 0 <= j < |t.sizes[i].subtables| ==> WellFormedSub(t.sizes[i].subtables[j])
  }

  function DetachStrike(s: Strike): (d: Strike)
    ensures d.data == s.data && |d.subtables| == |s.subtables|
    ensures forall j :: 0 <= j < |s.subtables| ==> d.subtables[j] == s.subtables[j].(section := None)
  {
    Strike(s.data, seq(|s.subtables|, j requires 0 <= j < |s.subtables| => s.subtables[j].(section := None)))
  }

  /** The table without its sections, as `Deserialize` reads it. */
  function Detached(t: EblcTable): (d: EblcTable)
    ensures d.header == t.header && |d.sizes| == |t.sizes|
    ensures forall i :: 0 <= i < |t.sizes| ==> d.sizes[i] == DetachStrike(t.sizes[i])
  {
    EblcTable(t.header, seq(|t.sizes|, i requires 0 <= i < |t.sizes| => DetachStrike(t.sizes[i])))
  }

  // ------------------------------------------------------------ one subtable

  /** A body of offsets at byte 8 reads back as its offsets. */
  lemma {:induction false} Offsets32Read(o: seq<u32>, w: seq<byte>)
    requires Within(w, 8, Words.Image32(o))
    ensures BodyRead(1, BufferReaders.Reader(w, 8), |o| - 1) == Ok(Offsets32(o))
  {
    WithinSlice(w, 8, Words.Image32(o));
    AppendEmpty(Words.Image32(o));
    Words.Values32Image(o, []);
  }

  lemma {:induction false} Offsets16Read(o: seq<u16>, w: seq<byte>)
    requires Within(w, 8, Words.Image16(o))
    ensures BodyRead(3, BufferReaders.Reader(w, 8), |o| - 1) == Ok(Offsets16(o))
  {
    WithinSlice(w, 8, Words.Image16(o));
    AppendEmpty(Words.Image16(o));
    Words.Values16Image(o, []);
  }

  lemma {:induction false} MonospaceRead(size: u32, m: Ebdt.BigMetrics, w: seq<byte>, numGlyphs: int)
    requires Within(w, 8, BodyImage(Monospace(size, m)))
    ensures BodyRead(2, BufferReaders.Reader(w, 8), numGlyphs) == Ok(Monospace(size, m))
  {
    LayoutSizes();
    Ebdt.LayoutSizes();
    var x, y := Encode(ImageSizeLayout, [size]), Encode(Ebdt.BigLayout, Ebdt.BigRow(m));
    WithinSplit(w, 8, x, y);
    RecordRead(w, 8, ImageSizeLayout, [size]);
    RecordRead(w, 12, Ebdt.BigLayout, Ebdt.BigRow(m));
    assert Ebdt.BigOf(Ebdt.BigRow(m)) == m;
  }

  /** A subtable body image at byte 8 reads back as the body. */
  lemma {:induction false} BodyRoundTrip(b: Body, w: seq<byte>, numGlyphs: int)
    requires Within(w, 8, BodyImage(b))
    requires b.Offsets32? ==> |b.offsets32| == numGlyphs + 1
    requires b.Offsets16? ==> |b.offsets16| == numGlyphs + 1
    ensures BodyRead(IndexFormat(b), BufferReaders.Reader(w, 8), numGlyphs) == Ok(b)
  {
    match b
    case Offsets32(o) => Offsets32Read(o, w);
    case Offsets16(o) => Offsets16Read(o, w);
    case Monospace(size, m) => MonospaceRead(size, m, w, numGlyphs);
  }

  /** A subtable image at the start of w reads back as its header, then its body. */
  lemma {:induction false} SubRoundTrip(s: IndexSubtable, w: seq<byte>)
    requires WellFormedSub(s) && Within(w, 0, SubImage(s))
    ensures FixedTable.Deserialize(BufferReaders.Fresh(w), SubHeaderLayout) ==
      Ok((SubHeaderRow(s.header), BufferReaders.Reader(w, 8)))
    ensures BodyRead(s.header.indexFormat, BufferReaders.Reader(w, 8), NumGlyphs(s.lookup)) == Ok(s.body)
  {
    SubParts(s, w);
    SubHeaderRead(w, s.header);
    BodyRoundTrip(s.body, w, NumGlyphs(s.lookup));
  }

  /** A subtable image at the start of w has its header there and its body from byte 8. */
  lemma {:induction false} SubParts(s: IndexSubtable, w: seq<byte>)
    requires Within(w, 0, SubImage(s))
    ensures Within(w, 0, FixedTable.Serialize(SubHeaderLayout, SubHeaderRow(s.header)))
    ensures Within(w, 8, BodyImage(s.body))
  {
    LayoutSizes();
    Round4Bounds(BodySize(s.body));
    FrontParts(w, FixedTable.Serialize(SubHeaderLayout, SubHeaderRow(s.header)), BodyImage(s.body),
      Zeros(Round4(BodySize(s.body)) - BodySize(s.body)));
  }

  /** The first two of three parts at the start of w, the first 8 bytes long. */
  lemma {:induction false} FrontParts(w: seq<byte>, x: seq<byte>, y: seq<byte>, z: seq<byte>)
    requires Within(w, 0, x + y + z) && |x| == 8
    ensures Within(w, 0, x) && Within(w, 8, y)
  {
    WithinSplit(w, 0, x + y, z);
    WithinSplit(w, 0, x, y);
  }

  /** A subtable header at the start of w reads back. */
  lemma {:induction false} SubHeaderRead(w: seq<byte>, h: SubtableHeader)
    requires Within(w, 0, FixedTable.Serialize(SubHeaderLayout, SubHeaderRow(h)))
    ensures FixedTable.Deserialize(BufferReaders.Fresh(w), SubHeaderLayout) ==
      Ok((SubHeaderRow(h), BufferReaders.Reader(w, 8)))
  {
    LayoutSizes();
    RecordRead(w, 0, SubHeaderLayout, SubHeaderRow(h));
  }

  /** The two halves of a size's array: the lookups from its start, the subtables past them. */
  lemma {:induction false} BlockParts(b: seq<byte>, a: nat, subs: seq<IndexSubtable>, q: nat)
    requires Within(b, a, Block(subs)) && q == a + 8 * |subs|
    ensures Within(b, a, RecordArrays.EncodeArray(LookupLayout, LookupRows(WrittenSubs(subs))))
    ensures Within(b, q, Slots.Concat(SubImages(subs)))
  {
    LayoutSizes();
    TimesIsProduct(|subs|, 8);
    WithinSplit(b, a, RecordArrays.EncodeArray(LookupLayout, LookupRows(WrittenSubs(subs))), Slots.Concat(SubImages(subs)));
  }

  /** Record j of an array of 8-byte records that lies at a lies at a + 8 j. */
  lemma {:induction false} RecordPlaced(b: seq<byte>, a: nat, rows: seq<seq<int>>, j: nat)
    requires RecordArrays.AllConform(LookupLayout, rows) && j < |rows|
    requires Within(b, a, RecordArrays.EncodeArray(LookupLayout, rows))
    ensures Within(b, a + 8 * j, Encode(LookupLayout, rows[j]))
  {
    LayoutSizes();
    TimesIsProduct(j, 8);
    RecordArrays.EncodeArrayAt(LookupLayout, rows, j, 8 * j);
    WithinInner(b, a, RecordArrays.EncodeArray(LookupLayout, rows), 8 * j, Encode(LookupLayout, rows[j]));
  }

  /** Lookup j of an array at a lies at a + 8 j. */
  lemma {:induction false} LookupPlaced(b: seq<byte>, a: nat, subs: seq<IndexSubtable>, j: nat)
    requires Within(b, a, Block(subs)) && j < |subs|
    ensures Within(b, a + 8 * j, Encode(LookupLayout, LookupRow(WrittenSub(subs, j).lookup)))
  {
    BlockParts(b, a, subs, a + 8 * |subs|);
    RecordPlaced(b, a, LookupRows(WrittenSubs(subs)), j);
  }

  /** Part j of parts that lie at p lies at p plus the lengths before it. */
  lemma {:induction false} PartPlaced(b: seq<byte>, p: nat, parts: seq<seq<byte>>, j: nat)
    requires Within(b, p, Slots.Concat(parts)) && j < |parts|
    ensures Within(b, p + Slots.Total(Slots.Lengths(parts)[..j]), parts[j])
  {
    Slots.ConcatAt(parts, j);
    WithinInner(b, p, Slots.Concat(parts), Slots.Total(Slots.Lengths(parts)[..j]), parts[j]);
  }

  /** Subtable j of subtables that lie at q lies at q plus the sizes before it. */
  lemma {:induction false} SubAt(b: seq<byte>, q: nat, subs: seq<IndexSubtable>, j: nat)
    requires Within(b, q, Slots.Concat(SubImages(subs))) && j < |subs|
    ensures Within(b, q + Slots.Total(SubSizes(subs)[..j]), SubImage(subs[j]))
  {
    SubImagesLengths(subs);
    PartPlaced(b, q, SubImages(subs), j);
  }

  /** Where subtable j starts and ends, counted from the array start. */
  lemma {:induction false} SubOffsets(subs: seq<IndexSubtable>, j: nat, a: nat, q: nat)
    requires j < |subs| && q == a + 8 * |subs|
    ensures q + Slots.Total(SubSizes(subs)[..j]) == a + LookupOffset(subs, j)
    ensures LookupOffset(subs, j) + SubSize(subs[j]) <= TablesSize(subs)
  {
    Slots.TotalStep(SubSizes(subs), j);
    Slots.TotalMonotone(SubSizes(subs), j + 1, |subs|);
    Slots.WholePrefix(SubSizes(subs));
  }

  /** Subtable j of an array at a lies at a plus its lookup's offset. */
  lemma {:induction false} SubPlaced(b: seq<byte>, a: nat, subs: seq<IndexSubtable>, j: nat, q: nat)
    requires Within(b, a, Block(subs)) && j < |subs| && q == a + 8 * |subs|
    ensures LookupOffset(subs, j) + SubSize(subs[j]) <= TablesSize(subs)
    ensures Within(b, a + LookupOffset(subs, j), SubImage(subs[j]))
  {
    BlockParts(b, a, subs, q);
    SubAt(b, q, subs, j);
    SubOffsets(subs, j, a, q);
  }

  /** A record image that lies at q reads back from a reader at q. */
  lemma {:induction false} RecordRead(w: seq<byte>, q: nat, layout: Layout, values: seq<int>)
    requires Conforms(layout, values) && Within(w, q, Encode(layout, values))
    ensures FixedTable.Deserialize(BufferReaders.Reader(w, q), layout) ==
      Ok((values, BufferReaders.Reader(w, q + Size(layout))))
  {
    var x := FixedTable.Serialize(layout, values);
    WithinSlice(w, q, x);
    FixedTable.RoundTrip(BufferReaders.Reader(w, q), layout, values);
  }

  /** A record image that lies at a + q reads back from the window at a, at q. */
  lemma {:induction false} RecordReadIn(b: seq<byte>, a: nat, q: nat, layout: Layout, values: seq<int>)
    requires Conforms(layout, values) && Within(b, a + q, Encode(layout, values))
    ensures FixedTable.Deserialize(BufferReaders.Reader(b[a..], q), layout) ==
      Ok((values, BufferReaders.Reader(b[a..], q + Size(layout))))
  {
    WithinSuffix(b, a, q, Encode(layout, values));
    RecordRead(b[a..], q, layout, values);
  }

  /** The lookup record that lies at a + 8 j reads back from the window at a, at 8 j. */
  lemma {:induction false} LookupRead(b: seq<byte>, a: nat, l: Lookup, j: nat)
    requires Within(b, a + 8 * j, Encode(LookupLayout, LookupRow(l)))
    ensures FixedTable.Deserialize(BufferReaders.Reader(b[a..], 8 * j), LookupLayout) ==
      Ok((LookupRow(l), BufferReaders.Reader(b[a..], 8 * j + Size(LookupLayout))))
  {
    RecordReadIn(b, a, 8 * j, LookupLayout, LookupRow(l));
  }

  /** Where lookup j and subtable j of an array at a lie. */
  lemma {:induction false} SubtablePlaced(b: seq<byte>, a: nat, subs: seq<IndexSubtable>, j: nat)
    requires Within(b, a, Block(subs)) && j < |subs|
    ensures Within(b, a + 8 * j, Encode(LookupLayout, LookupRow(WrittenSub(subs, j).lookup)))
    ensures LookupOffset(subs, j) + SubSize(subs[j]) <= TablesSize(subs)
    ensures Within(b, a + LookupOffset(subs, j), SubImage(subs[j]))
  {
    LookupPlaced(b, a, subs, j);
    SubPlaced(b, a, subs, j, a + 8 * |subs|);
  }

  /** `SubtableAt` put together from the reads it makes. */
  lemma {:induction false} SubtableReadsBack(data: Reader, a: int, j: nat, l: Lookup, p: int, h: SubtableHeader, body: Body)
    requires 0 <= a <= |data.buffer| && a < 0x8000_0000
    requires FixedTable.Deserialize(BufferReaders.Reader(data.buffer[a..], 8 * j), LookupLayout) ==
      Ok((LookupRow(l), BufferReaders.Reader(data.buffer[a..], 8 * j + Size(LookupLayout))))
    requires p == Add32(a, Int(l.additionalOffsetToIndexSubtable)) && 0 <= p <= |data.buffer|
    requires FixedTable.Deserialize(BufferReaders.Fresh(data.buffer[p..]), SubHeaderLayout) ==
      Ok((SubHeaderRow(h), BufferReaders.Reader(data.buffer[p..], 8)))
    requires BodyRead(h.indexFormat, BufferReaders.Reader(data.buffer[p..], 8), NumGlyphs(l)) == Ok(body)
    ensures SubtableAt(data, a, j) == Ok(IndexSubtable(l, h, body, None))
  {
    assert LookupOf(LookupRow(l)) == l;
    assert SubHeaderOf(SubHeaderRow(h)) == h;
  }

  /** A lookup at a + 8 j that points at a subtable image reads back as that lookup and subtable. */
  lemma {:induction false} SubtableRead(b: seq<byte>, a: nat, j: nat, l: Lookup, s: IndexSubtable, p: nat)
    requires a <= |b| && p == a + l.additionalOffsetToIndexSubtable as int && p < 0x8000_0000
    requires Within(b, a + 8 * j, Encode(LookupLayout, LookupRow(l)))
    requires l.firstGlyphIndex == s.lookup.firstGlyphIndex && l.lastGlyphIndex == s.lookup.lastGlyphIndex
    requires WellFormedSub(s) && Within(b, p, SubImage(s))
    ensures SubtableAt(BufferReaders.Fresh(b), a, j) == Ok(IndexSubtable(l, s.header, s.body, None))
  {
    SubReadAt(b, p, s, NumGlyphs(l));
    LookupThenSub(b, a, j, l, p, s.header, s.body);
  }

  /** A lookup image at a + 8 j, and a header and body that read back from the window at its offset. */
  lemma {:induction false} LookupThenSub(b: seq<byte>, a: nat, j: nat, l: Lookup, p: nat, h: SubtableHeader, body: Body)
    requires a <= |b| && p <= |b| && p == a + l.additionalOffsetToIndexSubtable as int && p < 0x8000_0000
    requires Within(b, a + 8 * j, Encode(LookupLayout, LookupRow(l)))
    requires FixedTable.Deserialize(BufferReaders.Fresh(b[p..]), SubHeaderLayout) ==
      Ok((SubHeaderRow(h), BufferReaders.Reader(b[p..], 8)))
    requires BodyRead(h.indexFormat, BufferReaders.Reader(b[p..], 8), NumGlyphs(l)) == Ok(body)
    ensures SubtableAt(BufferReaders.Fresh(b), a, j) == Ok(IndexSubtable(l, h, body, None))
  {
    EbdtRoundTrip.IntOf(l.additionalOffsetToIndexSubtable);
    LookupRead(b, a, l, j);
    SubtableReadsBack(BufferReaders.Fresh(b), a, j, l, p, h, body);
  }

  /** A subtable image that lies at p reads back from the window at p. */
  lemma {:induction false} SubReadAt(b: seq<byte>, p: nat, s: IndexSubtable, numGlyphs: int)
    requires WellFormedSub(s) && Within(b, p, SubImage(s)) && numGlyphs == NumGlyphs(s.lookup)
    ensures FixedTable.Deserialize(BufferReaders.Fresh(b[p..]), SubHeaderLayout) ==
      Ok((SubHeaderRow(s.header), BufferReaders.Reader(b[p..], 8)))
    ensures BodyRead(s.header.indexFormat, BufferReaders.Reader(b[p..], 8), numGlyphs) == Ok(s.body)
  {
    WithinSuffix(b, p, 0, SubImage(s));
    SubRoundTrip(s, b[p..]);
  }

  /** Subtable j of a size whose array lies at a, below 2^31, reads back as written, without its section. */
  lemma {:induction false} SubtableRoundTrip(b: seq<byte>, a: nat, subs: seq<IndexSubtable>, j: nat)
    requires Within(b, a, Block(subs)) && j < |subs| && a + TablesSize(subs) < 0x8000_0000
    requires WellFormedSub(subs[j])
    ensures SubtableAt(BufferReaders.Fresh(b), a, j) == Ok(WrittenSub(subs, j).(section := None))
  {
    SubtablePlaced(b, a, subs, j);
    SubtableRead(b, a, j, WrittenSub(subs, j).lookup, subs[j], a + LookupOffset(subs, j));
  }

  // ------------------------------------------------------------ one size

  /** Every subtable of a size whose array lies at a, below 2^31, reads back. */
  lemma {:induction false} SubtablesRoundTrip(b: seq<byte>, a: nat, subs: seq<IndexSubtable>)
    requires Within(b, a, Block(subs)) && a + TablesSize(subs) < 0x8000_0000
    requires forall j :: 0 <= j < |subs| ==> WellFormedSub(subs[j])
    ensures forall j :: 0 <= j < |subs| ==> SubtableAt(BufferReaders.Fresh(b), a, j) == Ok(WrittenSub(subs, j).(section := None))
  {
    forall j | 0 <= j < |subs|
      ensures SubtableAt(BufferReaders.Fresh(b), a, j) == Ok(WrittenSub(subs, j).(section := None))
    {
      SubtableRoundTrip(b, a, subs, j);
    }
  }

  /** A size record whose array offset and count lead to subtables that each read back reads back as those subtables. */
  lemma {:induction false} StrikeOf(data: Reader, d: SizeData, a: nat, xs: seq<IndexSubtable>)
    requires Int(d.indexSubTableArrayOffset) == a && a <= |data.buffer| && a < 0x8000_0000
    requires d.numberOfIndexSubTables as nat == |xs|
    requires forall j :: 0 <= j < |xs| ==> SubtableAt(data, a, j) == Ok(xs[j])
    ensures StrikeRead(data, d) == Ok(Strike(d, xs))
  {
    GatherAll(SubtableReads(data, a), xs, |xs|);
    assert xs[..|xs|] == xs;
  }

  /** Size i's array ends within the table. */
  lemma {:induction false} StrikeBound(t: EblcTable, i: nat)
    requires i < |t.sizes|
    ensures ArrayOffset(t, i) + TablesSize(t.sizes[i].subtables) <= GetSize(t)
  {
    Slots.TotalStep(BlockSizes(t), i);
    Slots.TotalMonotone(BlockSizes(t), i + 1, |t.sizes|);
    Slots.WholePrefix(BlockSizes(t));
  }

  /** The array offsets are the lengths of the arrays before. */
  lemma {:induction false} OffsetsAgree(t: EblcTable, i: nat, p: nat)
    requires p == 8 + 48 * |t.sizes| && i < |t.sizes|
    ensures p + Slots.Total(Slots.Lengths(Blocks(t))[..i]) == ArrayOffset(t, i)
  {
    BlocksLengths(t);
  }

  /** Size i's array lies at its array offset, when the arrays start at p. */
  lemma {:induction false} BlockPlaced(b: seq<byte>, t: EblcTable, i: nat, p: nat)
    requires p == 8 + 48 * |t.sizes|
    requires Within(b, p, Slots.Concat(Blocks(t))) && i < |t.sizes|
    ensures Within(b, ArrayOffset(t, i), Block(t.sizes[i].subtables))
  {
    OffsetsAgree(t, i, p);
    PartPlaced(b, p, Blocks(t), i);
  }

  /** The subtable count and array offset `Serialize` writes read back as themselves. */
  lemma {:induction false} WrittenCounts(t: EblcTable, i: nat)
    requires WellFormed(t) && i < |t.sizes|
    ensures Int(WrittenStrike(t, i).data.indexSubTableArrayOffset) == ArrayOffset(t, i)
    ensures WrittenStrike(t, i).data.numberOfIndexSubTables as nat == |t.sizes[i].subtables|
    ensures ArrayOffset(t, i) + TablesSize(t.sizes[i].subtables) < 0x8000_0000
  {
    StrikeBound(t, i);
    EbdtRoundTrip.IntOf(Cast32(ArrayOffset(t, i)));
  }

  /** Size i of a well-formed table reads back, from the size record `Serialize` writes, as written, without sections. */
  lemma {:induction false} StrikeRoundTrip(b: seq<byte>, t: EblcTable, i: nat, p: nat)
    requires WellFormed(t) && i < |t.sizes| && p == 8 + 48 * |t.sizes|
    requires Within(b, p, Slots.Concat(Blocks(t)))
    ensures StrikeRead(BufferReaders.Fresh(b), WrittenStrike(t, i).data) == Ok(DetachStrike(WrittenStrike(t, i)))
  {
    var subs := t.sizes[i].subtables;
    var st := WrittenStrike(t, i);
    var a := ArrayOffset(t, i);
    WrittenCounts(t, i);
    BlockPlaced(b, t, i, p);
    SubtablesRoundTrip(b, a, subs);
    StrikeOf(BufferReaders.Fresh(b), st.data, a, DetachStrike(st).subtables);
  }

  // ------------------------------------------------------------ the table

  /** The image of `Serialize`, at the start of a buffer, holds its three parts. */
  lemma {:induction false} ImagePlaced(t: EblcTable, rest: seq<byte>, p: nat)
    requires p == 8 + 48 * |t.sizes|
    ensures Within(Image(t) + rest, 0, HeaderImage(Written(t).header))
    ensures Within(Image(t) + rest, 8, Slots.Concat(SizeImages(t)))
    ensures Within(Image(t) + rest, p, Slots.Concat(Blocks(t)))
  {
    SizeImagesLength(t);
    ThreeParts(HeaderImage(Written(t).header), Slots.Concat(SizeImages(t)), Slots.Concat(Blocks(t)), rest, p);
  }

  /** Three parts at the start of a buffer, the first 8 bytes long, lie one after the other. */
  lemma {:induction false} ThreeParts(x: seq<byte>, y: seq<byte>, z: seq<byte>, rest: seq<byte>, p: nat)
    requires |x| == 8 && p == 8 + |y|
    ensures Within(x + y + z + rest, 0, x) && Within(x + y + z + rest, 8, y) && Within(x + y + z + rest, p, z)
  {
    WithinStart(x + y + z, rest);
    WithinSplit(x + y + z + rest, 0, x + y, z);
    WithinSplit(x + y + z + rest, 0, x, y);
  }

  lemma {:induction false} WithinStart(x: seq<byte>, y: seq<byte>)
    ensures Within(x + y, 0, x)
  {
    assert forall k :: 0 <= k < |x| ==> (x + y)[k] == x[k];
  }

  /** Size record i of the records reads back as the one `Serialize` wrote. */
  lemma {:induction false} SizeAt(t: EblcTable, i: nat, records: seq<byte>, q: nat)
    requires i < |t.sizes| && records == Slots.Concat(SizeImages(t)) && q == 48 * i
    ensures q + 48 <= |records| && SizeDataFrom(records[q..]) == WrittenStrike(t, i).data
  {
    SizeImagesAt(t, i);
    SliceOfSuffix(records, q, 0, 48, q, q + 48);
    SizeRoundTrip(WrittenStrike(t, i).data, records[q..]);
  }

  /** Size i reads back, subtables and all, from the records `Serialize` wrote. */
  lemma {:induction false} SizeReadBack(b: seq<byte>, t: EblcTable, i: nat, p: nat, records: seq<byte>)
    requires WellFormed(t) && i < |t.sizes| && p == 8 + 48 * |t.sizes|
    requires Within(b, p, Slots.Concat(Blocks(t))) && records == Slots.Concat(SizeImages(t))
    ensures StrikeReads(BufferReaders.Fresh(b), records).requires(i)
    ensures StrikeReads(BufferReaders.Fresh(b), records)(i) == Ok(Detached(Written(t)).sizes[i])
  {
    SizeAt(t, i, records, 48 * i);
    StrikeRoundTrip(b, t, i, p);
    DetachedWritten(t, i);
  }

  lemma {:induction false} DetachedWritten(t: EblcTable, i: nat)
    requires i < |t.sizes|
    ensures Detached(Written(t)).sizes[i] == DetachStrike(WrittenStrike(t, i))
  {
  }

  /** All sizes read back. */
  lemma {:induction false} SizesReadBack(b: seq<byte>, t: EblcTable, p: nat, records: seq<byte>)
    requires WellFormed(t) && p == 8 + 48 * |t.sizes|
    requires Within(b, p, Slots.Concat(Blocks(t))) && records == Slots.Concat(SizeImages(t))
    requires |records| == 48 * |t.sizes|
    ensures Gather(StrikeReads(BufferReaders.Fresh(b), records), |t.sizes|) == Ok(Detached(Written(t)).sizes)
  {
    forall j | 0 <= j < |t.sizes|
      ensures StrikeReads(BufferReaders.Fresh(b), records).requires(j)
      ensures StrikeReads(BufferReaders.Fresh(b), records)(j) == Ok(Detached(Written(t)).sizes[j])
    {
      SizeReadBack(b, t, j, p, records);
    }
    GatherWhole(StrikeReads(BufferReaders.Fresh(b), records), Detached(Written(t)).sizes);
  }

  /** The header reads back, and its size count is the number of sizes. */
  lemma {:induction false} HeaderReadBack(b: seq<byte>, t: EblcTable)
    requires WellFormed(t) && Within(b, 0, HeaderImage(Written(t).header))
    ensures FixedTable.Deserialize(BufferReaders.Fresh(b), HeaderLayout) ==
      Ok((HeaderRow(Written(t).header), BufferReaders.Reader(b, 8)))
    ensures Int(Written(t).header.numSizes) == |t.sizes|
  {
    LayoutSizes();
    RecordRead(b, 0, HeaderLayout, HeaderRow(Written(t).header));
    assert |t.sizes| < 0x8000_0000 by { ImageSize(t); }
    EbdtRoundTrip.IntOf(Cast32(|t.sizes|));
  }

  /** The size records read back, and the reader ends past them. */
  lemma {:induction false} RecordsReadBack(b: seq<byte>, n: nat, p: nat, records: seq<byte>)
    requires p == 8 + 48 * n && |records| == 48 * n && Within(b, 8, records)
    ensures BufferReaders.ReadUnalignedArray(BufferReaders.Reader(b, 8), 48, n) ==
      Ok((records, BufferReaders.Reader(b, p)))
  {
    WithinSlice(b, 8, records);
  }

  /**
   * `Deserialize` reads back what `Serialize` wrote: the header, every size
   * and every subtable (without its link to `EBDT`), and leaves the reader
   * past the size records.
   */
  lemma {:induction false} TableReadBack(b: seq<byte>, t: EblcTable, p: nat)
    requires WellFormed(t) && p == 8 + 48 * |t.sizes|
    requires Within(b, 0, HeaderImage(Written(t).header)) && Within(b, 8, Slots.Concat(SizeImages(t)))
    requires Within(b, p, Slots.Concat(Blocks(t)))
    ensures Parse(BufferReaders.Fresh(b)) == Ok((Detached(Written(t)), BufferReaders.Reader(b, p)))
  {
    HeaderReadBack(b, t);
    SizeImagesLength(t);
    RecordsReadBack(b, |t.sizes|, p, Slots.Concat(SizeImages(t)));
    SizesReadBack(b, t, p, Slots.Concat(SizeImages(t)));
    assert HeaderOf(HeaderRow(Written(t).header)) == Written(t).header;
  }

  /** The round trip of the whole table, with any bytes after it. */
  lemma {:induction false} TableRoundTrip(t: EblcTable, rest: seq<byte>)
    requires WellFormed(t)
    ensures Parse(BufferReaders.Fresh(Image(t) + rest)) ==
      Ok((Detached(Written(t)), BufferReaders.Reader(Image(t) + rest, 8 + 48 * |t.sizes|)))
  {
    var p := 8 + 48 * |t.sizes|;
    ImagePlaced(t, rest, p);
    TableReadBack(Image(t) + rest, t, p);
  }
}
