/**
 * The `gasp` table: a 4-byte header (version, numRanges) followed by the
 * ranges, 4 bytes each.
 */
module Gasp {
  import opened Wrappers
  import opened Bytes
  import opened Records
  import opened RecordArrays
  import BufferReaders
  import FixedTable

  datatype GaspHeader = GaspHeader(version: u16, numRanges: u16)

  /** A range: its upper ppem bound and its behaviour flags (the flag enum is the 16-bit word itself). */
  datatype GaspRange = GaspRange(rangeMaxPPEM: u16, behaviour: u16)

  datatype GaspTable = GaspTable(header: GaspHeader, ranges: seq<GaspRange>)

  const HeaderLayout: Records.Layout := [U16, U16]
  const RangeLayout: Records.Layout := [U16, U16]

  lemma {:induction false} LayoutSizes()
    ensures Size(HeaderLayout) == 4 && Size(RangeLayout) == 4
  {
  }

  function HeaderRow(h: GaspHeader): (v: seq<int>)
    ensures Conforms(HeaderLayout, v)
  {
    [h.version, h.numRanges]
  }

  function RangeRows(ranges: seq<GaspRange>): (rows: seq<seq<int>>)
    ensures |rows| == |ranges| && AllConform(RangeLayout, rows)
  {
    seq(|ranges|, i requires 0 <= i < |ranges| => [ranges[i].rangeMaxPPEM as int, ranges[i].behaviour as int])
  }

  function RangesOf(rows: seq<seq<int>>): seq<GaspRange>
    requires AllConform(RangeLayout, rows)
  {
    seq(|rows|, i requires 0 <= i < |rows| => GaspRange(rows[i][0], rows[i][1]))
  }

  lemma {:induction false} RangesOfRows(ranges: seq<GaspRange>)
    ensures RangesOf(RangeRows(ranges)) == ranges
  {
  }

  function GetSize(g: GaspTable): nat
  {
    4 + 4 * |g.ranges|
  }

  /** The header `Serialize` stores: version 1 and the range count cut to 16 bits by the `(ushort)` cast. */
  function WrittenHeader(g: GaspTable): (h: GaspHeader)
    ensures h.version == 1 && h.numRanges == |g.ranges| % 0x1_0000
  {
    GaspHeader(1, |g.ranges| % 0x1_0000)
  }

  /** The bytes `Serialize` writes: the header, then every range in order. */
  function Image(g: GaspTable): (image: seq<byte>)
    ensures |image| == GetSize(g)
  {
    LayoutSizes();
    TimesIsProduct(|g.ranges|, 4);
    FixedTable.Serialize(HeaderLayout, HeaderRow(WrittenHeader(g))) + EncodeArray(RangeLayout, RangeRows(g.ranges))
  }

  /**
   * `Serialize` into a destination of destLength bytes: IndexOutOfRange when
   * it is shorter than the table; otherwise the table with its header
   * updated and the bytes written at the start of the destination, the
   * header first and then one range per turn of the loop.
   */
  method Serialize(g: GaspTable, destLength: int) returns (res: Result<(GaspTable, seq<byte>)>)
    ensures destLength < GetSize(g) ==> res == Err(IndexOutOfRange)
    ensures destLength >= GetSize(g) ==> res == Ok((g.(header := WrittenHeader(g)), Image(g)))
  {
    if destLength < 4 + 4 * |g.ranges| {
      return Err(IndexOutOfRange);
    }
    var header := GaspHeader(1, |g.ranges| % 0x1_0000);
    var image := FixedTable.Serialize(HeaderLayout, HeaderRow(header));
    ghost var headerImage := image;
    ghost var rows := RangeRows(g.ranges);
    var i := 0;
    while i < |g.ranges|
      invariant 0 <= i <= |g.ranges|
      invariant AllConform(RangeLayout, rows[..i])
      invariant image == headerImage + EncodeArray(RangeLayout, rows[..i])
    {
      var range := g.ranges[i];
      var row := [range.rangeMaxPPEM as int, range.behaviour as int];
      assert row == rows[i];
      EncodeArraySnoc(RangeLayout, rows, i);
      Assoc(headerImage, EncodeArray(RangeLayout, rows[..i]), Encode(RangeLayout, row));
      image := image + FixedTable.Serialize(RangeLayout, row);
      i := i + 1;
    }
    assert rows[..i] == rows;
    res := Ok((g.(header := header), image));
  }

  /** `Deserialize`: the header, then exactly numRanges ranges. */
  function Deserialize(r: BufferReaders.Reader): (res: Result<(GaspTable, BufferReaders.Reader)>)
    ensures res.Ok? ==> |res.value.0.ranges| == res.value.0.header.numRanges
  {
    var h :- FixedTable.Deserialize(r, HeaderLayout);
    var header := GaspHeader(h.0[0], h.0[1]);
    var rows :- BufferReaders.ReadMany(h.1, header.numRanges, BufferReaders.RecordReader(RangeLayout));
    BufferReaders.ReadRecordsConform(h.1, header.numRanges, RangeLayout);
    Ok((GaspTable(header, RangesOf(rows.0)), rows.1))
  }

  /** A header image at the start and numRanges range images read after it make the parsed table. */
  lemma {:induction false} DeserializeOf(img: seq<byte>, h: GaspHeader, rows: seq<seq<int>>)
    requires 4 <= |img| && img[0..4] == FixedTable.Serialize(HeaderLayout, HeaderRow(h))
    requires h.numRanges == |rows| && AllConform(RangeLayout, rows)
    requires BufferReaders.ReadMany(BufferReaders.Reader(img, 4), |rows|, BufferReaders.RecordReader(RangeLayout)) ==
      Ok((rows, BufferReaders.Reader(img, |img|)))
    ensures Deserialize(BufferReaders.Fresh(img)) == Ok((GaspTable(h, RangesOf(rows)), BufferReaders.Reader(img, |img|)))
  {
    LayoutSizes();
    FixedTable.RoundTrip(BufferReaders.Fresh(img), HeaderLayout, HeaderRow(h));
  }

  /** Parsing the serialized table gives back the ranges under the written header and ends at its last byte. */
  lemma {:induction false} RoundTrip(g: GaspTable)
    requires |g.ranges| < 0x1_0000
    ensures Deserialize(BufferReaders.Fresh(Image(g))) ==
      Ok((g.(header := WrittenHeader(g)), BufferReaders.Reader(Image(g), |Image(g)|)))
  {
    LayoutSizes();
    var img := Image(g);
    var head := FixedTable.Serialize(HeaderLayout, HeaderRow(WrittenHeader(g)));
    var rows := RangeRows(g.ranges);
    var body := EncodeArray(RangeLayout, rows);
    TimesIsProduct(|g.ranges|, 4);
    Parts3(img, head, body, [], 4, |img|);
    BufferReaders.ReadRecords(img, 4, |img|, RangeLayout, rows);
    DeserializeOf(img, WrittenHeader(g), rows);
    RangesOfRows(g.ranges);
  }
}
