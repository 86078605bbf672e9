/**
 * The `EBLC` table: where the glyph bitmaps of the `EBDT` table lie.  An
 * 8-byte header, a 48-byte record per bitmap size (strike), then for every
 * size its index subtable array: an 8-byte lookup record per index
 * subtable, followed by the subtables themselves, each an 8-byte header and
 * a body rounded up to a multiple of 4 bytes.  The body of index format 1
 * holds 32-bit glyph offsets, format 2 an image size and the metrics every
 * glyph shares, format 3 16-bit glyph offsets.
 *
 * `Serialize` fills in every offset and count as it lays the table out;
 * `Written` is the table as it leaves it and `Image` the bytes it writes
 * into a zero-filled destination (the padding after a body is never
 * written, so it keeps the destination's zeros).
 *
 * A subtable's bitmap section is an object shared with the `EBDT` table;
 * here it is the index of that section in the `EBDT` table's list, or
 * `None` for a subtable that has none yet (a null reference).
 */
module Eblc {
  import opened Wrappers
  import opened Bytes
  import opened Records
  import RecordArrays
  import Slots
  import Words
  import FixedTable
  import Ebdt

  datatype EblcHeader = EblcHeader(majorVersion: u16, minorVersion: u16, numSizes: u32)

  /** `TtfTableEblcSbitLineMetricsData`, the two padding bytes included. */
  datatype LineMetrics = LineMetrics(
    ascender: i8, descender: i8, widthMax: byte,
    caretSlopeNumerator: i8, caretSlopeDenominator: i8, caretOffset: i8,
    minOriginSB: i8, minAdvanceSB: i8, maxBeforeBL: i8, minAfterBL: i8, pad1: i8, pad2: i8)

  /** `TtfTableEblcBitmapSizeData`. */
  datatype SizeData = SizeData(
    indexSubTableArrayOffset: u32, indexTablesSize: u32, numberOfIndexSubTables: u32, colorRef: u32,
    hori: LineMetrics, vert: LineMetrics,
    startGlyphIndex: u16, endGlyphIndex: u16, ppemX: byte, ppemY: byte, bitDepth: byte, flags: byte)

  datatype Lookup = Lookup(firstGlyphIndex: u16, lastGlyphIndex: u16, additionalOffsetToIndexSubtable: u32)

  datatype SubtableHeader = SubtableHeader(indexFormat: u16, imageFormat: u16, imageDataOffset: u32)

  /** The body of an index subtable, one constructor per subtable class. */
  datatype Body =
    | Offsets32(offsets32: seq<u32>)
    | Monospace(imageSize: u32, metrics: Ebdt.BigMetrics)
    | Offsets16(offsets16: seq<u16>)

  datatype IndexSubtable = IndexSubtable(lookup: Lookup, header: SubtableHeader, body: Body, section: Option<nat>)

  /** `TtfTableEblcSize`: one bitmap size and its index subtables. */
  datatype Strike = Strike(data: SizeData, subtables: seq<IndexSubtable>)

  datatype EblcTable = EblcTable(header: EblcHeader, sizes: seq<Strike>)

  // ------------------------------------------------------------ records

  const HeaderLayout: Layout := [U16, U16, U32]
  const CountsLayout: Layout := [U32, U32, U32, U32]
  const LineLayout: Layout := [I8, I8, U8, I8, I8, I8, I8, I8, I8, I8, I8, I8]
  const TailLayout: Layout := [U16, U16, U8, U8, U8, U8]
  const LookupLayout: Layout := [U16, U16, U32]
  const SubHeaderLayout: Layout := [U16, U16, U32]
  const ImageSizeLayout: Layout := [U32]

  lemma {:induction false} LineLayoutSize()
    ensures Size(LineLayout) == 12
  {
  }

  lemma {:induction false} LayoutSizes()
    ensures Size(HeaderLayout) == 8 && Size(LookupLayout) == 8 && Size(SubHeaderLayout) == 8
    ensures Size(ImageSizeLayout) == 4 && Size(CountsLayout) == 16 && Size(TailLayout) == 8
  {
  }

  function HeaderRow(h: EblcHeader): (v: seq<int>)
    ensures Conforms(HeaderLayout, v)
  {
    [h.majorVersion, h.minorVersion, h.numSizes]
  }

  function HeaderOf(v: seq<int>): (h: EblcHeader)
    requires Conforms(HeaderLayout, v)
    ensures HeaderRow(h) == v
  {
    EblcHeader(v[0], v[1], v[2])
  }

  function LineRow(m: LineMetrics): (v: seq<int>)
    ensures Conforms(LineLayout, v)
  {
    [m.ascender, m.descender, m.widthMax, m.caretSlopeNumerator, m.caretSlopeDenominator, m.caretOffset,
     m.minOriginSB, m.minAdvanceSB, m.maxBeforeBL, m.minAfterBL, m.pad1, m.pad2]
  }

  function LineOf(v: seq<int>): (m: LineMetrics)
    requires Conforms(LineLayout, v)
    ensures LineRow(m) == v
  {
    LineMetrics(v[0], v[1], v[2], v[3], v[4], v[5], v[6], v[7], v[8], v[9], v[10], v[11])
  }

  function CountsRow(d: SizeData): (v: seq<int>)
    ensures Conforms(CountsLayout, v)
  {
    [d.indexSubTableArrayOffset, d.indexTablesSize, d.numberOfIndexSubTables, d.colorRef]
  }

  function TailRow(d: SizeData): (v: seq<int>)
    ensures Conforms(TailLayout, v)
  {
    [d.startGlyphIndex, d.endGlyphIndex, d.ppemX, d.ppemY, d.bitDepth, d.flags]
  }

  /** The 48 bytes of a size record: its counts, the horizontal and the vertical line metrics, then the glyph range and flags. */
  function SizeImage(d: SizeData): (img: seq<byte>)
    ensures |img| == 48
  {
    LayoutSizes();
    LineLayoutSize();
    FixedTable.Serialize(CountsLayout, CountsRow(d)) + FixedTable.Serialize(LineLayout, LineRow(d.hori)) +
      FixedTable.Serialize(LineLayout, LineRow(d.vert)) + FixedTable.Serialize(TailLayout, TailRow(d))
  }

  function CountsFrom(b: seq<byte>): (v: seq<int>)
    requires |b| == 16
    ensures Conforms(CountsLayout, v)
  {
    LayoutSizes();
    DecodeConforms(CountsLayout, b);
    Decode(CountsLayout, b)
  }

  function LineFrom(b: seq<byte>): LineMetrics
    requires |b| == 12
  {
    LineLayoutSize();
    DecodeConforms(LineLayout, b);
    LineOf(Decode(LineLayout, b))
  }

  function TailFrom(b: seq<byte>): (v: seq<int>)
    requires |b| == 8
    ensures Conforms(TailLayout, v)
  {
    LayoutSizes();
    DecodeConforms(TailLayout, b);
    Decode(TailLayout, b)
  }

  /** The size record whose image starts the bytes. */
  function SizeDataFrom(b: seq<byte>): SizeData
    requires 48 <= |b|
  {
    var n, t := CountsFrom(b[..16]), TailFrom(b[40..48]);
    SizeData(n[0], n[1], n[2], n[3], LineFrom(b[16..28]), LineFrom(b[28..40]), t[0], t[1], t[2], t[3], t[4], t[5])
  }

  lemma {:induction false} LineRoundTrip(m: LineMetrics)
    ensures LineFrom(FixedTable.Serialize(LineLayout, LineRow(m))) == m
  {
    LineLayoutSize();
    var v := LineRow(m);
    assert LineRow(LineOf(v)) == v;
  }

  /** A size record's image read back gives the record. */
  lemma {:induction false} SizeRoundTrip(d: SizeData, b: seq<byte>)
    requires 48 <= |b| && b[..48] == SizeImage(d)
    ensures SizeDataFrom(b) == d
  {
    LayoutSizes();
    LineLayoutSize();
    var c, h, v, e := FixedTable.Serialize(CountsLayout, CountsRow(d)), FixedTable.Serialize(LineLayout, LineRow(d.hori)),
      FixedTable.Serialize(LineLayout, LineRow(d.vert)), FixedTable.Serialize(TailLayout, TailRow(d));
    Parts4(b, c, h, v, e);
    assert CountsFrom(b[..16]) == CountsRow(d);
    assert TailFrom(b[40..48]) == TailRow(d);
    LineRoundTrip(d.hori);
    LineRoundTrip(d.vert);
  }

  /** A 16, 12, 12 and 8 byte part laid end to end at the start of the bytes each lie at their place. */
  lemma {:induction false} Parts4(s: seq<byte>, a: seq<byte>, b: seq<byte>, c: seq<byte>, d: seq<byte>)
    requires |a| == 16 && |b| == 12 && |c| == 12 && |d| == 8
    requires 48 <= |s| && s[..48] == a + b + c + d
    ensures s[..16] == a && s[16..28] == b && s[28..40] == c && s[40..48] == d
  {
    assert s[..16] == s[..48][..16] && s[16..28] == s[..48][16..28];
    assert s[28..40] == s[..48][28..40] && s[40..48] == s[..48][40..48];
  }

  function LookupRow(l: Lookup): (v: seq<int>)
    ensures Conforms(LookupLayout, v)
  {
    [l.firstGlyphIndex, l.lastGlyphIndex, l.additionalOffsetToIndexSubtable]
  }

  function LookupOf(v: seq<int>): (l: Lookup)
    requires Conforms(LookupLayout, v)
    ensures LookupRow(l) == v
  {
    Lookup(v[0], v[1], v[2])
  }

  function SubHeaderRow(h: SubtableHeader): (v: seq<int>)
    ensures Conforms(SubHeaderLayout, v)
  {
    [h.indexFormat, h.imageFormat, h.imageDataOffset]
  }

  function SubHeaderOf(v: seq<int>): (h: SubtableHeader)
    requires Conforms(SubHeaderLayout, v)
    ensures SubHeaderRow(h) == v
  {
    SubtableHeader(v[0], v[1], v[2])
  }

  /** The (uint) cast of a non-negative int. */
  function Cast32(x: nat): (r: u32)
    ensures x < 0x1_0000_0000 ==> r == x
  {
    x % 0x1_0000_0000
  }

  // ------------------------------------------------------------ one index subtable

  /** The subtable's `NumGlyphs`: lastGlyphIndex - firstGlyphIndex + 1, which can be 0 or negative. */
  function NumGlyphs(l: Lookup): int
  {
    l.lastGlyphIndex as int - l.firstGlyphIndex as int + 1
  }

  /** The `IndexFormat` of the subtable's class. */
  function IndexFormat(b: Body): u16
  {
    match b
    case Offsets32(_) => 1
    case Monospace(_, _) => 2
    case Offsets16(_) => 3
  }

  /** `GetBodySize`. */
  function BodySize(b: Body): nat
  {
    match b
    case Offsets32(o) => 4 * |o|
    case Monospace(_, _) => 12
    case Offsets16(o) => 2 * |o|
  }

  /** The bytes `SerializeBody` writes: the offsets word by word, or the image size and then the metrics. */
  function BodyImage(b: Body): (s: seq<byte>)
    ensures |s| == BodySize(b)
  {
    match b
    case Offsets32(o) => Words.Image32(o)
    case Monospace(size, m) =>
      LayoutSizes();
      Ebdt.LayoutSizes();
      FixedTable.Serialize(ImageSizeLayout, [size]) + FixedTable.Serialize(Ebdt.BigLayout, Ebdt.BigRow(m))
    case Offsets16(o) => Words.Image16(o)
  }

  /** The room a subtable takes: its header and its body rounded up to 4 bytes. */
  function SubSize(s: IndexSubtable): nat
  {
    8 + Round4(BodySize(s.body))
  }

  /** The subtable's header, its body, and the padding, which keeps the destination's zeros. */
  function SubImage(s: IndexSubtable): (img: seq<byte>)
    ensures |img| == SubSize(s)
  {
    LayoutSizes();
    Round4Bounds(BodySize(s.body));
    FixedTable.Serialize(SubHeaderLayout, SubHeaderRow(s.header)) + BodyImage(s.body) +
      Zeros(Round4(BodySize(s.body)) - BodySize(s.body))
  }

  // ------------------------------------------------------------ one size

  function SubSizes(subs: seq<IndexSubtable>): (ss: seq<nat>)
    ensures |ss| == |subs| && forall j :: 0 <= j < |subs| ==> ss[j] == SubSize(subs[j])
  {
    seq(|subs|, j requires 0 <= j < |subs| => SubSize(subs[j]))
  }

  /** Subtable j's `additionalOffsetToIndexSubtable`: past the lookup array and the subtables before it. */
  function LookupOffset(subs: seq<IndexSubtable>, j: nat): nat
    requires j <= |subs|
  {
    8 * |subs| + Slots.Total(SubSizes(subs)[..j])
  }

  /** The size's `indexTablesSize`: the lookup array and every subtable. */
  function TablesSize(subs: seq<IndexSubtable>): nat
  {
    8 * |subs| + Slots.Total(SubSizes(subs))
  }

  /** Subtable j as `Serialize` leaves it: its lookup points at where it was written. */
  function WrittenSub(subs: seq<IndexSubtable>, j: nat): (w: IndexSubtable)
    requires j < |subs|
    ensures w.header == subs[j].header && w.body == subs[j].body && w.section == subs[j].section
    ensures w.lookup.firstGlyphIndex == subs[j].lookup.firstGlyphIndex && w.lookup.lastGlyphIndex == subs[j].lookup.lastGlyphIndex
    ensures w.lookup.additionalOffsetToIndexSubtable == Cast32(LookupOffset(subs, j))
  {
    subs[j].(lookup := subs[j].lookup.(additionalOffsetToIndexSubtable := Cast32(LookupOffset(subs, j))))
  }

  function WrittenSubs(subs: seq<IndexSubtable>): (ws: seq<IndexSubtable>)
    ensures |ws| == |subs| && forall j :: 0 <= j < |subs| ==> ws[j] == WrittenSub(subs, j)
  {
    seq(|subs|, j requires 0 <= j < |subs| => WrittenSub(subs, j))
  }

  function LookupRows(subs: seq<IndexSubtable>): (rows: seq<seq<int>>)
    ensures |rows| == |subs| && RecordArrays.AllConform(LookupLayout, rows)
    ensures forall j :: 0 <= j < |subs| ==> rows[j] == LookupRow(subs[j].lookup)
  {
    seq(|subs|, j requires 0 <= j < |subs| => LookupRow(subs[j].lookup))
  }

  function SubImages(subs: seq<IndexSubtable>): (parts: seq<seq<byte>>)
    ensures |parts| == |subs| && forall j :: 0 <= j < |subs| ==> parts[j] == SubImage(subs[j])
  {
    seq(|subs|, j requires 0 <= j < |subs| => SubImage(subs[j]))
  }

  lemma {:induction false} SubImagesLengths(subs: seq<IndexSubtable>)
    ensures Slots.Lengths(SubImages(subs)) == SubSizes(subs)
    ensures |Slots.Concat(SubImages(subs))| == Slots.Total(SubSizes(subs))
  {
    Slots.ConcatLength(SubImages(subs));
  }

  /** The index subtable array of a size: the written lookups, then the subtables. */
  function Block(subs: seq<IndexSubtable>): (b: seq<byte>)
    ensures |b| == TablesSize(subs)
  {
    LayoutSizes();
    TimesIsProduct(|subs|, 8);
    SubImagesLengths(subs);
    RecordArrays.EncodeArray(LookupLayout, LookupRows(WrittenSubs(subs))) + Slots.Concat(SubImages(subs))
  }

  // ------------------------------------------------------------ the table

  function BlockSizes(t: EblcTable): (bs: seq<nat>)
    ensures |bs| == |t.sizes| && forall i :: 0 <= i < |t.sizes| ==> bs[i] == TablesSize(t.sizes[i].subtables)
  {
    seq(|t.sizes|, i requires 0 <= i < |t.sizes| => TablesSize(t.sizes[i].subtables))
  }

  /** Size i's `indexSubTableArrayOffset`: past the header, the size records and the arrays before it. */
  function ArrayOffset(t: EblcTable, i: nat): nat
    requires i <= |t.sizes|
  {
    8 + 48 * |t.sizes| + Slots.Total(BlockSizes(t)[..i])
  }

  /** `GetSize`: the header, the size records, and every size's lookups and subtables. */
  function GetSize(t: EblcTable): nat
  {
    8 + 48 * |t.sizes| + Slots.Total(BlockSizes(t))
  }

  /** A size record as `Serialize` writes it for an array at `at`: its offset, its size, its count, colorRef 0. */
  function WrittenData(s: Strike, at: nat): (d: SizeData)
    ensures d.hori == s.data.hori && d.vert == s.data.vert && TailRow(d) == TailRow(s.data)
    ensures d.indexSubTableArrayOffset == Cast32(at) && d.indexTablesSize == Cast32(TablesSize(s.subtables))
    ensures d.numberOfIndexSubTables == Cast32(|s.subtables|) && d.colorRef == 0
  {
    s.data.(indexSubTableArrayOffset := Cast32(at), indexTablesSize := Cast32(TablesSize(s.subtables)),
            colorRef := 0, numberOfIndexSubTables := Cast32(|s.subtables|))
  }

  function WrittenStrike(t: EblcTable, i: nat): Strike
    requires i < |t.sizes|
  {
    Strike(WrittenData(t.sizes[i], ArrayOffset(t, i)), WrittenSubs(t.sizes[i].subtables))
  }

  /** The table as `Serialize` leaves it: version 2.0, its size count, and every offset and count filled in. */
  function Written(t: EblcTable): (w: EblcTable)
    ensures w.header == EblcHeader(2, 0, Cast32(|t.sizes|)) && |w.sizes| == |t.sizes|
    ensures forall i :: 0 <= i < |t.sizes| ==> w.sizes[i] == WrittenStrike(t, i)
  {
    EblcTable(EblcHeader(2, 0, Cast32(|t.sizes|)), seq(|t.sizes|, i requires 0 <= i < |t.sizes| => WrittenStrike(t, i)))
  }

  function SizeImages(t: EblcTable): (parts: seq<seq<byte>>)
    ensures |parts| == |t.sizes| && forall i :: 0 <= i < |t.sizes| ==> parts[i] == SizeImage(WrittenStrike(t, i).data)
  {
    seq(|t.sizes|, i requires 0 <= i < |t.sizes| => SizeImage(WrittenStrike(t, i).data))
  }

  /** Size record i lies at byte 48 i of the records. */
  lemma {:induction false} SizeImagesAt(t: EblcTable, i: nat)
    requires i < |t.sizes|
    ensures 48 * i + 48 <= |Slots.Concat(SizeImages(t))| == 48 * |t.sizes|
    ensures Slots.Concat(SizeImages(t))[48 * i..48 * i + 48] == SizeImage(WrittenStrike(t, i).data)
  {
    Slots.ConcatUniform(SizeImages(t), 48, i);
  }

  lemma {:induction false} SizeImagesLength(t: EblcTable)
    ensures |Slots.Concat(SizeImages(t))| == 48 * |t.sizes|
  {
    Slots.ConcatUniformLength(SizeImages(t), 48);
  }

  function Blocks(t: EblcTable): (parts: seq<seq<byte>>)
    ensures |parts| == |t.sizes| && forall i :: 0 <= i < |t.sizes| ==> parts[i] == Block(t.sizes[i].subtables)
  {
    seq(|t.sizes|, i requires 0 <= i < |t.sizes| => Block(t.sizes[i].subtables))
  }

  lemma {:induction false} BlocksLengths(t: EblcTable)
    ensures Slots.Lengths(Blocks(t)) == BlockSizes(t)
    ensures |Slots.Concat(Blocks(t))| == Slots.Total(BlockSizes(t))
  {
    Slots.ConcatLength(Blocks(t));
  }

  function HeaderImage(h: EblcHeader): (s: seq<byte>)
    ensures |s| == 8
  {
    LayoutSizes();
    FixedTable.Serialize(HeaderLayout, HeaderRow(h))
  }

  /** The bytes `Serialize` writes into a zero-filled destination: header, size records, index subtable arrays. */
  function Image(t: EblcTable): seq<byte>
  {
    HeaderImage(Written(t).header) + Slots.Concat(SizeImages(t)) + Slots.Concat(Blocks(t))
  }

  /** `Serialize` fills exactly the `GetSize` bytes. */
  lemma {:induction false} ImageSize(t: EblcTable)
    ensures |Image(t)| == GetSize(t)
  {
    SizeImagesLength(t);
    BlocksLengths(t);
  }

  // ------------------------------------------------------------ serializing

  /** `SerializeBody`: format 1 and 3 copy their offsets word by word, format 2 writes the size and the metrics. */
  method SerializeBody(b: Body) returns (img: seq<byte>)
    ensures img == BodyImage(b)
  {
    match b
    case Offsets32(o) =>
      img := [];
      for i := 0 to |o|
        invariant img == Words.Image32(o[..i])
      {
        Words.Image32Snoc(o, i);
        img := img + BE32(o[i]);
      }
      assert o[..|o|] == o;
    case Offsets16(o) =>
      img := [];
      for i := 0 to |o|
        invariant img == Words.Image16(o[..i])
      {
        Words.Image16Snoc(o, i);
        img := img + BE16(o[i]);
      }
      assert o[..|o|] == o;
    case Monospace(_, _) =>
      img := BodyImage(b);
  }

  /** The inner loop's state after j subtables: the cursor, the subtables rewritten, the lookups and subtables written. */
  ghost predicate SubsUpTo(subs: seq<IndexSubtable>, j: nat, add: nat, written: seq<IndexSubtable>,
                           lookups: seq<byte>, bodies: seq<byte>)
  {
    && j <= |subs| && add == LookupOffset(subs, j) && written == WrittenSubs(subs)[..j]
    && lookups == RecordArrays.EncodeArray(LookupLayout, LookupRows(WrittenSubs(subs))[..j])
    && bodies == Slots.Concat(SubImages(subs)[..j])
  }

  lemma {:induction false} SubsStart(subs: seq<IndexSubtable>)
    ensures SubsUpTo(subs, 0, 8 * |subs|, [], [], [])
  {
    Slots.WholePrefix(SubSizes(subs));
    Slots.WholePrefix(LookupRows(WrittenSubs(subs)));
    Slots.WholePrefix(SubImages(subs));
  }

  lemma {:induction false} SubsStep(subs: seq<IndexSubtable>, j: nat, add: nat, written: seq<IndexSubtable>,
                                    lookups: seq<byte>, bodies: seq<byte>, s: IndexSubtable)
    requires j < |subs| && SubsUpTo(subs, j, add, written, lookups, bodies)
    requires s == subs[j].(lookup := subs[j].lookup.(additionalOffsetToIndexSubtable := Cast32(add)))
    ensures SubsUpTo(subs, j + 1, add + SubSize(subs[j]), written + [s],
                     lookups + Encode(LookupLayout, LookupRow(s.lookup)), bodies + SubImage(subs[j]))
  {
    var ws := WrittenSubs(subs);
    assert add + SubSize(subs[j]) == LookupOffset(subs, j + 1) by {
      Slots.TotalStep(SubSizes(subs), j);
    }
    assert s == ws[j];
    assert written + [s] == ws[..j + 1] by {
      Slots.TakeStep(ws, j);
    }
    assert lookups + Encode(LookupLayout, LookupRow(s.lookup)) ==
      RecordArrays.EncodeArray(LookupLayout, LookupRows(ws)[..j + 1]) by {
      RecordArrays.EncodeArraySnoc(LookupLayout, LookupRows(ws), j);
    }
    assert bodies + SubImage(subs[j]) == Slots.Concat(SubImages(subs)[..j + 1]) by {
      Slots.ConcatStep(SubImages(subs), j);
    }
  }

  /** What one turn writes for a subtable: its header, its body, the padding to a multiple of four. */
  lemma {:induction false} SubWritten(s: IndexSubtable, t: IndexSubtable, body: seq<byte>, aligned: int)
    requires t.header == s.header && t.body == s.body
    requires body == BodyImage(s.body) && aligned == (|body| + 3) / 4 * 4
    ensures |body| <= aligned && 8 + aligned == SubSize(s)
    ensures Encode(SubHeaderLayout, SubHeaderRow(t.header)) + body + Zeros(aligned - |body|) == SubImage(s)
  {
    Round4Bounds(BodySize(s.body));
  }

  lemma {:induction false} SubsDone(subs: seq<IndexSubtable>, add: nat, written: seq<IndexSubtable>,
                                    lookups: seq<byte>, bodies: seq<byte>)
    requires SubsUpTo(subs, |subs|, add, written, lookups, bodies)
    ensures add == TablesSize(subs) && written == WrittenSubs(subs) && lookups + bodies == Block(subs)
  {
    Slots.WholePrefix(SubSizes(subs));
    Slots.WholePrefix(WrittenSubs(subs));
    Slots.WholePrefix(LookupRows(WrittenSubs(subs)));
    Slots.WholePrefix(SubImages(subs));
  }

  /** One turn of the inner loop: subtable j's lookup gets the cursor, and its lookup, header and body are written. */
  method SerializeNext(subs: seq<IndexSubtable>, j: nat, add: nat, written: seq<IndexSubtable>,
                       lookups: seq<byte>, bodies: seq<byte>)
    returns (add': nat, written': seq<IndexSubtable>, lookups': seq<byte>, bodies': seq<byte>)
    requires j < |subs| && SubsUpTo(subs, j, add, written, lookups, bodies)
    ensures SubsUpTo(subs, j + 1, add', written', lookups', bodies')
  {
    var s := subs[j].(lookup := subs[j].lookup.(additionalOffsetToIndexSubtable := Cast32(add)));
    SubsStep(subs, j, add, written, lookups, bodies, s);
    var body := SerializeBody(s.body);
    var bodySize := |body|;
    var aligned := (bodySize + 3) / 4 * 4;
    SubWritten(subs[j], s, body, aligned);
    lookups' := lookups + Encode(LookupLayout, LookupRow(s.lookup));
    bodies' := bodies + (Encode(SubHeaderLayout, SubHeaderRow(s.header)) + body + Zeros(aligned - bodySize));
    written' := written + [s];
    add' := add + 8 + aligned;
  }

  /**
   * The inner loop of `Serialize` over one size whose array starts at
   * `arrayCursor`: each lookup gets the offset of its subtable, the
   * subtables are written one after another, and the size record gets the
   * array's offset, its size and its count.
   */
  method SerializeStrike(size: Strike, arrayCursor: nat) returns (st: Strike, block: seq<byte>)
    ensures st == Strike(WrittenData(size, arrayCursor), WrittenSubs(size.subtables))
    ensures block == Block(size.subtables)
  {
    var subs := size.subtables;
    var add: nat := 8 * |subs|;
    var written: seq<IndexSubtable> := [];
    var lookups: seq<byte> := [];
    var bodies: seq<byte> := [];
    SubsStart(subs);
    for j := 0 to |subs|
      invariant SubsUpTo(subs, j, add, written, lookups, bodies)
    {
      add, written, lookups, bodies := SerializeNext(subs, j, add, written, lookups, bodies);
    }
    SubsDone(subs, add, written, lookups, bodies);
    st := Strike(size.data.(indexTablesSize := Cast32(add), indexSubTableArrayOffset := Cast32(arrayCursor),
                            colorRef := 0, numberOfIndexSubTables := Cast32(|subs|)), written);
    block := lookups + bodies;
  }

  /** The outer loop's state after i sizes: the array cursor, the sizes rewritten, their records and arrays written. */
  ghost predicate SizesUpTo(t: EblcTable, i: nat, cursor: nat, sizes: seq<Strike>, records: seq<byte>, blocks: seq<byte>)
  {
    && i <= |t.sizes| && cursor == ArrayOffset(t, i) && sizes == Written(t).sizes[..i]
    && records == Slots.Concat(SizeImages(t)[..i])
    && blocks == Slots.Concat(Blocks(t)[..i])
  }

  lemma {:induction false} SizesStart(t: EblcTable)
    ensures SizesUpTo(t, 0, 8 + 48 * |t.sizes|, [], [], [])
  {
    Slots.WholePrefix(BlockSizes(t));
    Slots.WholePrefix(Written(t).sizes);
    Slots.WholePrefix(SizeImages(t));
    Slots.WholePrefix(Blocks(t));
  }

  lemma {:induction false} SizesStep(t: EblcTable, i: nat, cursor: nat, sizes: seq<Strike>, records: seq<byte>,
                                     blocks: seq<byte>, st: Strike, block: seq<byte>)
    requires i < |t.sizes| && SizesUpTo(t, i, cursor, sizes, records, blocks)
    requires st == Strike(WrittenData(t.sizes[i], cursor), WrittenSubs(t.sizes[i].subtables))
    requires block == Block(t.sizes[i].subtables)
    ensures SizesUpTo(t, i + 1, cursor + |block|, sizes + [st],
                      records + SizeImage(st.data), blocks + block)
  {
    assert st == WrittenStrike(t, i);
    Slots.TotalStep(BlockSizes(t), i);
    Slots.TakeStep(Written(t).sizes, i);
    Slots.ConcatStep(SizeImages(t), i);
    Slots.ConcatStep(Blocks(t), i);
  }

  lemma {:induction false} SizesDone(t: EblcTable, cursor: nat, sizes: seq<Strike>, records: seq<byte>, blocks: seq<byte>)
    requires SizesUpTo(t, |t.sizes|, cursor, sizes, records, blocks)
    ensures sizes == Written(t).sizes
    ensures HeaderImage(Written(t).header) + records + blocks == Image(t)
  {
    Slots.WholePrefix(Written(t).sizes);
    Slots.WholePrefix(SizeImages(t));
    Slots.WholePrefix(Blocks(t));
  }

  /** One turn of the outer loop: size i's array at the cursor, then its record. */
  method SerializeSize(t: EblcTable, i: nat, cursor: nat, sizes: seq<Strike>, records: seq<byte>, blocks: seq<byte>)
    returns (cursor': nat, sizes': seq<Strike>, records': seq<byte>, blocks': seq<byte>)
    requires i < |t.sizes| && SizesUpTo(t, i, cursor, sizes, records, blocks)
    ensures SizesUpTo(t, i + 1, cursor', sizes', records', blocks')
  {
    var st, block := SerializeStrike(t.sizes[i], cursor);
    SizesStep(t, i, cursor, sizes, records, blocks, st, block);
    sizes' := sizes + [st];
    records' := records + SizeImage(st.data);
    blocks' := blocks + block;
    cursor' := cursor + |block|;
  }

  /**
   * `Serialize` into a zero-filled destination of destLength bytes: the
   * version becomes 2.0 and numSizes the size count, each size's index
   * subtable array follows the one before it, and every record is written
   * where the offsets say.  A destination shorter than `GetSize` throws
   * IndexOutOfRange before anything is written.
   */
  method Serialize(t: EblcTable, destLength: nat) returns (res: Result<(EblcTable, seq<byte>)>)
    ensures destLength < GetSize(t) ==> res == Err(IndexOutOfRange)
    ensures GetSize(t) <= destLength ==> res == Ok((Written(t), Image(t) + Zeros(destLength - GetSize(t))))
  {
    if destLength < GetSize(t) {
      return Err(IndexOutOfRange);
    }
    var header := EblcHeader(2, 0, Cast32(|t.sizes|));
    var cursor: nat := 8 + 48 * |t.sizes|;
    var sizes: seq<Strike> := [];
    var records: seq<byte> := [];
    var blocks: seq<byte> := [];
    SizesStart(t);
    for i := 0 to |t.sizes|
      invariant SizesUpTo(t, i, cursor, sizes, records, blocks)
    {
      cursor, sizes, records, blocks := SerializeSize(t, i, cursor, sizes, records, blocks);
    }
    SizesDone(t, cursor, sizes, records, blocks);
    ImageSize(t);
    res := Ok((EblcTable(header, sizes), HeaderImage(header) + records + blocks + Zeros(destLength - GetSize(t))));
  }
}
