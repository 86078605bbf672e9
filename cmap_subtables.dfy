/**
 * The `cmap` subtables of formats 0, 4, 6 and 12: their sizes, the bytes
 * their `Serialize` writes (after it updates the header fields it owns)
 * and their `Deserialize`.
 */
module CmapSubtables {
  import opened Wrappers
  import opened Bytes
  import opened Records
  import opened RecordArrays
  import opened Words
  import BufferReaders
  import FixedTable
  import Slots

  datatype Header0 = Header0(format: u16, length: u16, language: u16)
  datatype Header4 = Header4(format: u16, length: u16, language: u16, segCountX2: u16,
                             searchRange: u16, entrySelector: u16, rangeShift: u16)
  datatype Header6 = Header6(format: u16, length: u16, language: u16, firstCode: u16, entryCount: u16)
  datatype Header12 = Header12(format: u16, reserved: u16, length: u32, language: u32, numGroups: u32)

  datatype Segment = Segment(startCode: u16, endCode: u16, idDelta: u16, idRangeOffset: u16)
  datatype Group = Group(startCharCode: u32, endCharCode: u32, startGlyphCode: u32)

  /** The format-0 glyph array is a fixed array of 256 bytes. */
  type ByteMap = s: seq<byte> | |s| == 256 witness Zeros(256)

  datatype Subtable =
    | Format0(header0: Header0, glyphs0: ByteMap)
    | Format4(header4: Header4, segments: seq<Segment>, glyphIndexArray: seq<u16>)
    | Format6(header6: Header6, glyphs6: seq<u16>)
    | Format12(header12: Header12, groups: seq<Group>)

  const Header0Layout: Records.Layout := [U16, U16, U16]
  const Header4Layout: Records.Layout := [U16, U16, U16, U16, U16, U16, U16]
  const Header6Layout: Records.Layout := [U16, U16, U16, U16, U16]
  const Header12Layout: Records.Layout := [U16, U16, U32, U32, U32]
  const GroupLayout: Records.Layout := [U32, U32, U32]

  lemma {:induction false} LayoutSizes()
    ensures Size(Header0Layout) == 6 && Size(Header4Layout) == 14 && Size(Header6Layout) == 10
    ensures Size(Header12Layout) == 16 && Size(GroupLayout) == 12
  {
  }

  function Row0(h: Header0): (v: seq<int>)
    ensures Conforms(Header0Layout, v)
  {
    [h.format, h.length, h.language]
  }

  function Row4(h: Header4): (v: seq<int>)
    ensures Conforms(Header4Layout, v)
  {
    [h.format, h.length, h.language, h.segCountX2, h.searchRange, h.entrySelector, h.rangeShift]
  }

  function Row6(h: Header6): (v: seq<int>)
    ensures Conforms(Header6Layout, v)
  {
    [h.format, h.length, h.language, h.firstCode, h.entryCount]
  }

  function Row12(h: Header12): (v: seq<int>)
    ensures Conforms(Header12Layout, v)
  {
    [h.format, h.reserved, h.length, h.language, h.numGroups]
  }

  function Header0Of(v: seq<int>): Header0
    requires Conforms(Header0Layout, v)
  {
    Header0(v[0], v[1], v[2])
  }

  function Header4Of(v: seq<int>): Header4
    requires Conforms(Header4Layout, v)
  {
    Header4(v[0], v[1], v[2], v[3], v[4], v[5], v[6])
  }

  function Header6Of(v: seq<int>): Header6
    requires Conforms(Header6Layout, v)
  {
    Header6(v[0], v[1], v[2], v[3], v[4])
  }

  function Header12Of(v: seq<int>): Header12
    requires Conforms(Header12Layout, v)
  {
    Header12(v[0], v[1], v[2], v[3], v[4])
  }

  function GroupRows(groups: seq<Group>): (rows: seq<seq<int>>)
    ensures |rows| == |groups| && AllConform(GroupLayout, rows)
  {
    seq(|groups|, i requires 0 <= i < |groups| =>
      [groups[i].startCharCode as int, groups[i].endCharCode as int, groups[i].startGlyphCode as int])
  }

  function GroupsOf(rows: seq<seq<int>>): seq<Group>
    requires AllConform(GroupLayout, rows)
  {
    seq(|rows|, i requires 0 <= i < |rows| => Group(rows[i][0], rows[i][1], rows[i][2]))
  }

  // ------------------------------------------------------------ sizes

  /** `GetSize` of each format. */
  function SubtableSize(s: Subtable): nat
  {
    match s
    case Format0(_, _) => 262
    case Format4(_, segments, glyphs) => 14 + 8 * |segments| + 2 + 2 * |glyphs|
    case Format6(_, glyphs) => 10 + 2 * |glyphs|
    case Format12(_, groups) => 16 + 12 * |groups|
  }

  // ------------------------------------------------------------ format 4 search fields

  /**
   * The index of the highest set bit, -1 for 0: what the bit loop of
   * format 4's `Serialize` leaves in `msb`.
   */
  function Log2(p: nat): int
  {
    if p == 0 then -1 else 1 + Log2(p / 2)
  }

  function Pow2(k: nat): nat
  {
    if k == 0 then 1 else 2 * Pow2(k - 1)
  }

  /** For a positive value, 2^msb is the largest power of two not above it. */
  lemma {:induction false} Log2Bounds(p: nat)
    requires p > 0
    ensures 0 <= Log2(p) && Pow2(Log2(p)) <= p < 2 * Pow2(Log2(p))
  {
    if p > 1 {
      Log2Bounds(p / 2);
    }
  }

  lemma {:induction false} Log2Below(p: nat, k: nat)
    requires p < Pow2(k)
    ensures Log2(p) < k
  {
    if p > 0 {
      Log2Below(p / 2, k - 1);
    }
  }

  lemma {:induction false} Pow2Values()
    ensures Pow2(15) == 0x8000 && Pow2(16) == 0x1_0000
  {
    assert Pow2(4) == 16;
    assert Pow2(8) == 256 by {
      assert Pow2(5) == 32 && Pow2(6) == 64 && Pow2(7) == 128;
    }
    assert Pow2(12) == 4096 by {
      assert Pow2(9) == 512 && Pow2(10) == 1024 && Pow2(11) == 2048;
    }
    assert Pow2(13) == 8192 && Pow2(14) == 16384;
  }

  /**
   * The bit loop: shift p right until it is 0, at most 16 times; the
   * number of shifts minus one.
   */
  method HighestBit(p0: u16) returns (msb: int)
    ensures msb == Log2(p0)
  {
    var p: nat := p0;
    var i := 0;
    Pow2Values();
    while i < 16
      invariant 0 <= i <= 16 && p < Pow2(16 - i)
      invariant i + Log2(p) == Log2(p0)
    {
      if p == 0 {
        break;
      }
      p := p / 2;
      i := i + 1;
    }
    if i == 16 {
      assert p == 0;
    }
    msb := i - 1;
  }

  /** The header format 4's `Serialize` stores, every value cut to 16 bits as its `(ushort)` casts do. */
  function Written4(h: Header4, segCount: nat, size: nat): Header4
  {
    var msb := Log2(segCount % 0x1_0000);
    var searchRange := if msb + 1 >= 0 then Pow2(msb + 1) % 0x1_0000 else 0;
    h.(format := 4, length := size % 0x1_0000, segCountX2 := (segCount * 2) % 0x1_0000,
       searchRange := searchRange, entrySelector := msb % 0x1_0000,
       rangeShift := (2 * segCount - searchRange) % 0x1_0000)
  }

  /**
   * For 1 to 32767 segments the stored fields are the ones the OpenType
   * format 4 prescribes: segCountX2 = 2n, entrySelector = ⌊log2 n⌋,
   * searchRange = 2·2^entrySelector and rangeShift = 2n − searchRange.
   */
  lemma {:induction false} Written4Fields(h: Header4, n: nat, size: nat)
    requires 0 < n < 0x8000
    ensures var w := Written4(h, n, size);
      && w.segCountX2 == 2 * n
      && w.entrySelector == Log2(n) && Pow2(Log2(n)) <= n < 2 * Pow2(Log2(n))
      && w.searchRange == 2 * Pow2(Log2(n))
      && w.rangeShift == 2 * n - w.searchRange
  {
    Log2Bounds(n);
    Pow2Values();
    Log2Below(n, 15);
    ModSmall(n);
    var k := Log2(n);
    var p := Pow2(k);
    assert Pow2(k + 1) == 2 * p;
    ModSmall(2 * p);
    ModSmall(2 * n);
    ModSmall(k);
    ModSmall(2 * n - 2 * p);
  }

  lemma {:induction false} ModSmall(x: int)
    requires 0 <= x < 0x1_0000
    ensures x % 0x1_0000 == x
  {
  }

  // ------------------------------------------------------------ serializing

  function Ends(segments: seq<Segment>): (s: seq<u16>)
    ensures |s| == |segments| && forall i :: 0 <= i < |segments| ==> s[i] == segments[i].endCode
  {
    seq(|segments|, i requires 0 <= i < |segments| => segments[i].endCode)
  }

  function Starts(segments: seq<Segment>): (s: seq<u16>)
    ensures |s| == |segments| && forall i :: 0 <= i < |segments| ==> s[i] == segments[i].startCode
  {
    seq(|segments|, i requires 0 <= i < |segments| => segments[i].startCode)
  }

  function Deltas(segments: seq<Segment>): (s: seq<u16>)
    ensures |s| == |segments| && forall i :: 0 <= i < |segments| ==> s[i] == segments[i].idDelta
  {
    seq(|segments|, i requires 0 <= i < |segments| => segments[i].idDelta)
  }

  function RangeOffsets(segments: seq<Segment>): (s: seq<u16>)
    ensures |s| == |segments| && forall i :: 0 <= i < |segments| ==> s[i] == segments[i].idRangeOffset
  {
    seq(|segments|, i requires 0 <= i < |segments| => segments[i].idRangeOffset)
  }

  /** The body after the format-4 header: endCode[], the zero pad, startCode[], idDelta[], idRangeOffset[], glyphIdArray[]. */
  function Body4(segments: seq<Segment>, glyphs: seq<u16>): (b: seq<byte>)
    ensures |b| == 8 * |segments| + 2 + 2 * |glyphs|
  {
    Image16(Ends(segments)) + ([0, 0] + (Image16(Starts(segments)) + (Image16(Deltas(segments)) +
      (Image16(RangeOffsets(segments)) + Image16(glyphs)))))
  }

  /** The subtable as its `Serialize` leaves it: the header fields it writes updated. */
  function Written(s: Subtable): Subtable
  {
    match s
    case Format0(h, glyphs) => Format0(h.(format := 0, length := 262), glyphs)
    case Format4(h, segments, glyphs) =>
      if |segments| == 0 then s else Format4(Written4(h, |segments|, SubtableSize(s)), segments, glyphs)
    case Format6(h, glyphs) => Format6(h.(length := SubtableSize(s) % 0x1_0000), glyphs)
    case Format12(h, groups) =>
      Format12(h.(format := 12, reserved := 0, length := SubtableSize(s) % 0x1_0000_0000,
                  numGroups := |groups| % 0x1_0000_0000), groups)
  }

  /** The bytes a subtable's image holds: its header, then its arrays. */
  function Image(s: Subtable): seq<byte>
  {
    LayoutSizes();
    match s
    case Format0(h, glyphs) => FixedTable.Serialize(Header0Layout, Row0(h)) + glyphs
    case Format4(h, segments, glyphs) => FixedTable.Serialize(Header4Layout, Row4(h)) + Body4(segments, glyphs)
    case Format6(h, glyphs) => FixedTable.Serialize(Header6Layout, Row6(h)) + Image16(glyphs)
    case Format12(h, groups) => FixedTable.Serialize(Header12Layout, Row12(h)) + EncodeArray(GroupLayout, GroupRows(groups))
  }

  /** Serialization keeps the size, and a written image is exactly as long as the subtable's size. */
  lemma {:induction false} ImageSize(s: Subtable)
    ensures SubtableSize(Written(s)) == SubtableSize(s)
    ensures |Image(s)| == SubtableSize(s)
  {
    LayoutSizes();
    if s.Format12? {
      TimesIsProduct(|s.groups|, 12);
    }
  }

  /** The bytes `Serialize` writes into its destination: the image of the written subtable. */
  function SubtableImage(s: Subtable): seq<byte>
  {
    Image(Written(s))
  }

  /** The four column loops of format 4's `Serialize`, one segment per turn. */
  method SplitSegments(segments: seq<Segment>) returns (ends: seq<u16>, starts: seq<u16>, deltas: seq<u16>, ranges: seq<u16>)
    ensures ends == Ends(segments) && starts == Starts(segments)
    ensures deltas == Deltas(segments) && ranges == RangeOffsets(segments)
  {
    ends, starts, deltas, ranges := [], [], [], [];
    for i := 0 to |segments|
      invariant ends == Ends(segments)[..i] && starts == Starts(segments)[..i]
      invariant deltas == Deltas(segments)[..i] && ranges == RangeOffsets(segments)[..i]
    {
      Slots.TakeStep(Ends(segments), i);
      Slots.TakeStep(Starts(segments), i);
      Slots.TakeStep(Deltas(segments), i);
      Slots.TakeStep(RangeOffsets(segments), i);
      var seg := segments[i];
      starts := starts + [seg.startCode];
      ends := ends + [seg.endCode];
      deltas := deltas + [seg.idDelta];
      ranges := ranges + [seg.idRangeOffset];
    }
    assert Ends(segments)[..|segments|] == Ends(segments);
    assert Starts(segments)[..|segments|] == Starts(segments);
    assert Deltas(segments)[..|segments|] == Deltas(segments);
    assert RangeOffsets(segments)[..|segments|] == RangeOffsets(segments);
  }

  /** The group loop of format 12's `Serialize`: one 12-byte record per group. */
  method SerializeGroups(groups: seq<Group>) returns (image: seq<byte>)
    ensures image == EncodeArray(GroupLayout, GroupRows(groups))
  {
    ghost var rows := GroupRows(groups);
    image := [];
    for i := 0 to |groups|
      invariant AllConform(GroupLayout, rows[..i])
      invariant image == EncodeArray(GroupLayout, rows[..i])
    {
      var g := groups[i];
      var row := [g.startCharCode as int, g.endCharCode as int, g.startGlyphCode as int];
      assert row == rows[i];
      EncodeArraySnoc(GroupLayout, rows, i);
      image := image + FixedTable.Serialize(GroupLayout, row);
    }
    assert rows[..|groups|] == rows;
  }

  /**
   * A subtable's `Serialize` into a destination of destLength bytes:
   * ArgumentException unless that is its size, InvalidOperationException
   * for a format-4 subtable without segments, and otherwise the subtable
   * with its header updated and the bytes written.
   */
  method Serialize(s: Subtable, destLength: int) returns (res: Result<(Subtable, seq<byte>)>)
    ensures destLength != SubtableSize(s) ==> res == Err(Argument)
    ensures destLength == SubtableSize(s) && s.Format4? && |s.segments| == 0 ==> res == Err(InvalidOperation(""))
    ensures destLength == SubtableSize(s) && !(s.Format4? && |s.segments| == 0) ==>
      res == Ok((Written(s), SubtableImage(s)))
  {
    match s
    case Format0(h, glyphs) => res := Serialize0(h, glyphs, destLength);
    case Format4(h, segments, glyphs) => res := Serialize4(h, segments, glyphs, destLength);
    case Format6(h, glyphs) => res := Serialize6(h, glyphs, destLength);
    case Format12(h, groups) => res := Serialize12(h, groups, destLength);
  }

  method Serialize0(h: Header0, glyphs: ByteMap, destLength: int) returns (res: Result<(Subtable, seq<byte>)>)
    ensures destLength != 262 ==> res == Err(Argument)
    ensures destLength == 262 ==> res == Ok((Written(Format0(h, glyphs)), SubtableImage(Format0(h, glyphs))))
  {
    if destLength != 262 {
      return Err(Argument);
    }
    var header := h.(format := 0, length := 262);
    res := Ok((Format0(header, glyphs), FixedTable.Serialize(Header0Layout, Row0(header)) + glyphs));
  }

  method Serialize4(h: Header4, segments: seq<Segment>, glyphs: seq<u16>, destLength: int) returns (res: Result<(Subtable, seq<byte>)>)
    ensures var s := Format4(h, segments, glyphs);
      && (destLength != SubtableSize(s) ==> res == Err(Argument))
      && (destLength == SubtableSize(s) && |segments| == 0 ==> res == Err(InvalidOperation("")))
      && (destLength == SubtableSize(s) && |segments| > 0 ==> res == Ok((Written(s), SubtableImage(s))))
  {
    var size := 14 + |segments| * 2 * 4 + 2 + |glyphs| * 2;
    if size != destLength {
      return Err(Argument);
    }
    var segCount := |segments|;
    if segCount == 0 {
      return Err(InvalidOperation(""));
    }
    var msb := HighestBit(segCount % 0x1_0000);
    var searchRange := if msb + 1 >= 0 then Pow2(msb + 1) % 0x1_0000 else 0;
    var header := h.(format := 4, length := size % 0x1_0000, segCountX2 := (segCount * 2) % 0x1_0000,
                     searchRange := searchRange, entrySelector := msb % 0x1_0000,
                     rangeShift := (2 * segCount - searchRange) % 0x1_0000);
    assert header == Written4(h, segCount, size);
    var ends, starts, deltas, ranges := SplitSegments(segments);
    var body := Image16(ends) + ([0, 0] + (Image16(starts) + (Image16(deltas) + (Image16(ranges) + Image16(glyphs)))));
    res := Ok((Format4(header, segments, glyphs), FixedTable.Serialize(Header4Layout, Row4(header)) + body));
  }

  method Serialize6(h: Header6, glyphs: seq<u16>, destLength: int) returns (res: Result<(Subtable, seq<byte>)>)
    ensures destLength != 10 + 2 * |glyphs| ==> res == Err(Argument)
    ensures destLength == 10 + 2 * |glyphs| ==> res == Ok((Written(Format6(h, glyphs)), SubtableImage(Format6(h, glyphs))))
  {
    var size := 10 + |glyphs| * 2;
    if destLength != size {
      return Err(Argument);
    }
    var header := h.(length := size % 0x1_0000);
    res := Ok((Format6(header, glyphs), FixedTable.Serialize(Header6Layout, Row6(header)) + Image16(glyphs)));
  }

  method Serialize12(h: Header12, groups: seq<Group>, destLength: int) returns (res: Result<(Subtable, seq<byte>)>)
    ensures destLength != 16 + 12 * |groups| ==> res == Err(Argument)
    ensures destLength == 16 + 12 * |groups| ==> res == Ok((Written(Format12(h, groups)), SubtableImage(Format12(h, groups))))
  {
    var size := 16 + 12 * |groups|;
    if size != destLength {
      return Err(Argument);
    }
    var header := h.(format := 12, reserved := 0, length := size % 0x1_0000_0000,
                     numGroups := |groups| % 0x1_0000_0000);
    var image := SerializeGroups(groups);
    res := Ok((Format12(header, groups), FixedTable.Serialize(Header12Layout, Row12(header)) + image));
  }

  // ------------------------------------------------------------ parsing

  /**
   * Format 0's `Deserialize` as written: exactly 262 bytes, the header, then
   * `ReadBytes(Span)` for the glyph array, which copies the window's first
   * 256 bytes – the header included – instead of the bytes at the cursor.
   */
  function Parse0AsWritten(r: BufferReaders.Reader): (res: Result<Subtable>)
    ensures res.Ok? ==> res.value.Format0?
  {
    if BufferReaders.Remains(r) != 262 then Err(Argument)
    else
      var h :- FixedTable.Deserialize(r, Header0Layout);
      // 262 bytes remain, so the window holds the 256 bytes copied
      Ok(Format0(Header0Of(h.0), BufferReaders.ReadBytesFromStart(h.1, 256).value.0))
  }

  /** Format 0's `Deserialize` reading the glyph array at the cursor, after the header. */
  function Parse0(r: BufferReaders.Reader): (res: Result<Subtable>)
    ensures res.Ok? ==> res.value.Format0?
  {
    if BufferReaders.Remains(r) != 262 then Err(Argument)
    else
      var h :- FixedTable.Deserialize(r, Header0Layout);
      // 262 bytes remain, so the 256 after the header are there
      Ok(Format0(Header0Of(h.0), BufferReaders.ReadBytes(h.1, 256).value.0))
  }

  /** The segments whose fields are the n-th values of the four columns. */
  function SegmentsOf(ends: seq<byte>, starts: seq<byte>, deltas: seq<byte>, ranges: seq<byte>, n: nat): (segs: seq<Segment>)
    requires 2 * n <= |ends| && 2 * n <= |starts| && 2 * n <= |deltas| && 2 * n <= |ranges|
    ensures |segs| == n
  {
    seq(n, i requires 0 <= i < n =>
      Segment(U16At(starts, 2 * i), U16At(ends, 2 * i), U16At(deltas, 2 * i), U16At(ranges, 2 * i)))
  }

  /**
   * The column windows of format 4's `Deserialize`: endCode[] as a reader of
   * its own, the skipped pad, startCode[], idDelta[] and idRangeOffset[],
   * x2 bytes each, and the reader left after them.
   */
  function ReadColumns(r: BufferReaders.Reader, x2: u16): (res: Result<(seq<BufferReaders.Reader>, BufferReaders.Reader)>)
    ensures res.Ok? ==> |res.value.0| == 4 && res.value.1.cursor <= |res.value.1.buffer|
    ensures res.Ok? ==> forall k :: 0 <= k < 4 ==> res.value.0[k].cursor == 0 && |res.value.0[k].buffer| == x2
  {
    var e :- BufferReaders.ReadBuffer(r, x2);
    // Skip refuses only a negative length
    var r2 := BufferReaders.Skip(e.1, 2).value;
    var s :- BufferReaders.ReadBuffer(r2, x2);
    var d :- BufferReaders.ReadBuffer(s.1, x2);
    var o :- BufferReaders.ReadBuffer(d.1, x2);
    Ok(([e.0, s.0, d.0, o.0], o.1))
  }

  /** Every remaining whole 16-bit value, none when nothing remains. */
  function GlyphsOf(r: BufferReaders.Reader): seq<u16>
    requires r.cursor <= |r.buffer|
  {
    if BufferReaders.Remains(r) > 0 then Values16(r.buffer[r.cursor..], BufferReaders.Remains(r) / 2) else []
  }

  /**
   * Format 4's `Deserialize`: the header, the columns, segCountX2 / 2
   * segments and every remaining whole 16-bit value as the glyph array.
   */
  function Parse4(r: BufferReaders.Reader): (res: Result<Subtable>)
    ensures res.Ok? ==> res.value.Format4? && |res.value.segments| == res.value.header4.segCountX2 / 2
  {
    var h :- FixedTable.Deserialize(r, Header4Layout);
    var header := Header4Of(h.0);
    var c :- ReadColumns(h.1, header.segCountX2);
    var cols := c.0;
    Ok(Format4(header, SegmentsOf(cols[0].buffer, cols[1].buffer, cols[2].buffer, cols[3].buffer, header.segCountX2 / 2),
               GlyphsOf(c.1)))
  }

  /**
   * Format 6's `Deserialize`: ArgumentException unless the header's length
   * is the window's length and its entryCount the number of whole 16-bit
   * values after it.
   */
  function Parse6(r: BufferReaders.Reader): (res: Result<Subtable>)
    ensures res.Ok? ==> res.value.Format6? && |res.value.glyphs6| == res.value.header6.entryCount
  {
    var wholeLength := BufferReaders.Remains(r);
    var h :- FixedTable.Deserialize(r, Header6Layout);
    var header := Header6Of(h.0);
    if header.length != wholeLength then Err(Argument)
    else
      var arr :- BufferReaders.ReadUnalignedAsPossible(h.1, 2);
      if header.entryCount != |arr.0| / 2 then Err(Argument)
      else Ok(Format6(header, Values16(arr.0, |arr.0| / 2)))
  }

  /** Format 12's `Deserialize`: the header, then numGroups 12-byte groups. */
  function Parse12(r: BufferReaders.Reader): (res: Result<Subtable>)
    ensures res.Ok? ==> res.value.Format12? && |res.value.groups| == res.value.header12.numGroups
  {
    var h :- FixedTable.Deserialize(r, Header12Layout);
    var header := Header12Of(h.0);
    var rows :- BufferReaders.ReadMany(h.1, header.numGroups, BufferReaders.RecordReader(GroupLayout));
    BufferReaders.ReadRecordsConform(h.1, header.numGroups, GroupLayout);
    Ok(Format12(header, GroupsOf(rows.0)))
  }

  /** The reading loops of format 4's `Deserialize`: the segments, then the glyph array. */
  method Deserialize4(r: BufferReaders.Reader) returns (res: Result<Subtable>)
    ensures res == Parse4(r)
  {
    var h := FixedTable.Deserialize(r, Header4Layout);
    if h.Err? {
      return Err(h.error);
    }
    var header := Header4Of(h.value.0);
    var c := ReadColumns(h.value.1, header.segCountX2);
    if c.Err? {
      return Err(c.error);
    }
    var cols := c.value.0;
    var segments := ReadSegments(cols[0], cols[1], cols[2], cols[3], header.segCountX2 / 2);
    var glyphs := ReadGlyphArray(c.value.1);
    res := Ok(Format4(header, segments, glyphs));
  }

  /** The segment loop: one value from each column reader per turn. */
  method ReadSegments(ends: BufferReaders.Reader, starts: BufferReaders.Reader, deltas: BufferReaders.Reader,
                      ranges: BufferReaders.Reader, n: nat) returns (segments: seq<Segment>)
    requires ends.cursor == 0 && starts.cursor == 0 && deltas.cursor == 0 && ranges.cursor == 0
    requires 2 * n <= |ends.buffer| && 2 * n <= |starts.buffer| && 2 * n <= |deltas.buffer| && 2 * n <= |ranges.buffer|
    ensures segments == SegmentsOf(ends.buffer, starts.buffer, deltas.buffer, ranges.buffer, n)
  {
    ghost var all := SegmentsOf(ends.buffer, starts.buffer, deltas.buffer, ranges.buffer, n);
    var e, s, d, o := ends, starts, deltas, ranges;
    segments := [];
    for i := 0 to n
      invariant e == ends.(cursor := 2 * i) && s == starts.(cursor := 2 * i)
      invariant d == deltas.(cursor := 2 * i) && o == ranges.(cursor := 2 * i)
      invariant segments == all[..i]
    {
      var startCode := ReadWord(s);
      var endCode := ReadWord(e);
      var idDelta := ReadWord(d);
      var idRangeOffset := ReadWord(o);
      Slots.TakeStep(all, i);
      segments := segments + [Segment(startCode, endCode, idDelta, idRangeOffset)];
      e, s, d, o := BufferReaders.Advance(e, 2), BufferReaders.Advance(s, 2), BufferReaders.Advance(d, 2), BufferReaders.Advance(o, 2);
    }
    assert all[..n] == all;
  }

  /** `ReadUnaligned(out U16)` where two bytes are known to remain. */
  method ReadWord(r: BufferReaders.Reader) returns (v: u16)
    requires r.cursor + 2 <= |r.buffer|
    ensures BufferReaders.ReadUnaligned(r, 2) == Ok((BE16(v), BufferReaders.Advance(r, 2)))
    ensures v == U16At(r.buffer, r.cursor)
  {
    var bytes := BufferReaders.ReadUnaligned(r, 2).value.0;
    v := (bytes[0] as int) * 0x100 + bytes[1] as int;
    assert bytes == BE16(v);
  }

  /** The glyph-array loop: every remaining whole 16-bit value, read one by one. */
  method ReadGlyphArray(r: BufferReaders.Reader) returns (glyphs: seq<u16>)
    requires r.cursor <= |r.buffer|
    ensures glyphs == GlyphsOf(r)
  {
    glyphs := [];
    if BufferReaders.Remains(r) > 0 {
      var numIndices := BufferReaders.Remains(r) / 2;
      ghost var rest := r.buffer[r.cursor..];
      ghost var all := Values16(rest, numIndices);
      var cur := r;
      for i := 0 to numIndices
        invariant cur == BufferReaders.Advance(r, 2 * i)
        invariant glyphs == all[..i]
      {
        var index := ReadWord(cur);
        assert index == all[i] by {
          assert rest[2 * i..2 * i + 2] == cur.buffer[cur.cursor..cur.cursor + 2];
        }
        Slots.TakeStep(all, i);
        glyphs := glyphs + [index];
        cur := BufferReaders.Advance(cur, 2);
      }
      assert all[..numIndices] == all;
    }
  }

  // ------------------------------------------------------------ round trips

  /** What each subtable needs for its written image to parse back: a count and size its 16-bit fields can hold, and for format 6 a consistent entryCount. */
  predicate Parsable(s: Subtable)
  {
    match s
    case Format0(_, _) => true
    case Format4(_, segments, _) => 0 < |segments| < 0x8000
    case Format6(h, glyphs) => h.entryCount == |glyphs| && SubtableSize(s) < 0x1_0000
    case Format12(_, groups) => SubtableSize(s) < 0x1_0000_0000
  }

  /** The format-specific parser, format 0's as written. */
  function Parse(s: Subtable, r: BufferReaders.Reader): Result<Subtable>
  {
    match s
    case Format0(_, _) => Parse0AsWritten(r)
    case Format4(_, _, _) => Parse4(r)
    case Format6(_, _) => Parse6(r)
    case Format12(_, _) => Parse12(r)
  }

  /** Format 0: read at the cursor, the written image parses back to the written subtable. */
  lemma {:induction false} RoundTrip0(s: Subtable)
    requires s.Format0?
    ensures Parse0(BufferReaders.Fresh(SubtableImage(s))) == Ok(Written(s))
  {
    LayoutSizes();
    var w := Written(s);
    var head := FixedTable.Serialize(Header0Layout, Row0(w.header0));
    var img := head + w.glyphs0;
    FixedTable.RoundTripFresh(Header0Layout, Row0(w.header0), w.glyphs0);
    DropPrefix(head, w.glyphs0, 6);
    BufferReaders.ReadBytesOf(img, 6, 262, w.glyphs0);
  }

  /**
   * Format 0 as written: what parses back is the header's 6 bytes followed
   * by the first 250 glyph entries.
   */
  lemma {:induction false} RoundTrip0AsWritten(s: Subtable)
    requires s.Format0?
    ensures var w := Written(s);
      Parse0AsWritten(BufferReaders.Fresh(SubtableImage(s))) ==
        Ok(Format0(w.header0, FixedTable.Serialize(Header0Layout, Row0(w.header0)) + w.glyphs0[..250]))
  {
    LayoutSizes();
    var w := Written(s);
    var head := FixedTable.Serialize(Header0Layout, Row0(w.header0));
    FixedTable.RoundTripFresh(Header0Layout, Row0(w.header0), w.glyphs0);
    assert (head + w.glyphs0)[..256] == head + w.glyphs0[..250];
  }

  /** A subtable mapping character 0 to glyph 1 does not survive the as-written format-0 parse. */
  lemma {:induction false} RoundTrip0Fails()
    ensures var s := Format0(Header0(0, 262, 0), Zeros(256)[0 := 1]);
      Parse0AsWritten(BufferReaders.Fresh(SubtableImage(s))).value != Written(s)
  {
    var s := Format0(Header0(0, 262, 0), Zeros(256)[0 := 1]);
    RoundTrip0AsWritten(s);
    var w := Written(s);
    var head := FixedTable.Serialize(Header0Layout, Row0(w.header0));
    assert head[..2] == BE16(0) by {
      Records.EncodeFieldAt(Header0Layout, Row0(w.header0), 0, 0);
    }
    assert (head + w.glyphs0[..250])[0] == 0 != w.glyphs0[0];
  }

  /** Format 4: the written image, with 1 to 32767 segments, parses back to the written subtable. */
  lemma {:induction false} RoundTrip4(s: Subtable)
    requires s.Format4? && 0 < |s.segments| < 0x8000
    ensures Parse4(BufferReaders.Fresh(SubtableImage(s))) == Ok(Written(s))
  {
    LayoutSizes();
    var w := Written(s);
    var n := |s.segments|;
    Written4Fields(s.header4, n, SubtableSize(s));
    var segs, glyphs := s.segments, s.glyphIndexArray;
    var head := FixedTable.Serialize(Header4Layout, Row4(w.header4));
    var body := Body4(segs, glyphs);
    var img := head + body;
    FixedTable.RoundTripFresh(Header4Layout, Row4(w.header4), body);
    DropPrefix(head, body, 14);
    assert SubtableImage(s) == img;
    assert w == Format4(Written4(s.header4, n, SubtableSize(s)), segs, glyphs);
    var c := ColumnsOf(img, 14, segs, glyphs);
    ColumnsBack(segs);
    var wh := w.header4;
    assert Header4Of(Row4(wh)) == wh;
    assert wh.segCountX2 / 2 == n;
    var cols := c.0;
    assert cols[0].buffer == Image16(Ends(segs)) && cols[1].buffer == Image16(Starts(segs));
    assert cols[2].buffer == Image16(Deltas(segs)) && cols[3].buffer == Image16(RangeOffsets(segs));
    assert SegmentsOf(cols[0].buffer, cols[1].buffer, cols[2].buffer, cols[3].buffer, n) == segs;
    var r := BufferReaders.Fresh(img);
    assert FixedTable.Deserialize(r, Header4Layout) == Ok((Row4(wh), BufferReaders.Reader(img, 14)));
    assert Parse4(r) == Ok(Format4(wh, SegmentsOf(cols[0].buffer, cols[1].buffer, cols[2].buffer, cols[3].buffer, n), GlyphsOf(c.1)));
  }

  /** The column windows read over a body image at p: the four column images, then the glyph array read back. */
  lemma {:induction false} ColumnsOf(img: seq<byte>, p: nat, segs: seq<Segment>, glyphs: seq<u16>) returns (c: (seq<BufferReaders.Reader>, BufferReaders.Reader))
    requires p <= |img| && img[p..] == Body4(segs, glyphs) && 2 * |segs| < 0x1_0000
    ensures ReadColumns(BufferReaders.Reader(img, p), 2 * |segs|) == Ok(c)
    ensures c.0 == [BufferReaders.Fresh(Image16(Ends(segs))), BufferReaders.Fresh(Image16(Starts(segs))),
                    BufferReaders.Fresh(Image16(Deltas(segs))), BufferReaders.Fresh(Image16(RangeOffsets(segs)))]
    ensures c.1.cursor <= |c.1.buffer| && GlyphsOf(c.1) == glyphs
  {
    var n := |segs|;
    var G := Image16(glyphs);
    ReadColumnsOf(img, p, 2 * n, Image16(Ends(segs)), Image16(Starts(segs)), Image16(Deltas(segs)), Image16(RangeOffsets(segs)), G);
    c := ([BufferReaders.Fresh(Image16(Ends(segs))), BufferReaders.Fresh(Image16(Starts(segs))),
           BufferReaders.Fresh(Image16(Deltas(segs))), BufferReaders.Fresh(Image16(RangeOffsets(segs)))],
          BufferReaders.Reader(img, p + 8 * n + 2));
    GlyphsBack(img, p + 8 * n + 2, glyphs);
  }

  /** Reading the columns over their images gives readers over each, and leaves what follows. */
  lemma {:induction false} ReadColumnsOf(img: seq<byte>, p: nat, x2: u16, E: seq<byte>, S: seq<byte>, D: seq<byte>, O: seq<byte>, G: seq<byte>)
    requires |E| == x2 && |S| == x2 && |D| == x2 && |O| == x2
    requires p <= |img| && img[p..] == E + ([0, 0] + (S + (D + (O + G))))
    ensures ReadColumns(BufferReaders.Reader(img, p), x2) ==
      Ok(([BufferReaders.Fresh(E), BufferReaders.Fresh(S), BufferReaders.Fresh(D), BufferReaders.Fresh(O)],
          BufferReaders.Reader(img, p + 4 * x2 + 2)))
    ensures img[p + 4 * x2 + 2..] == G
  {
    BufferReaders.ReadBufferOf(img, p, E, [0, 0] + (S + (D + (O + G))));
    var q := p + x2 + 2;
    assert img[q..] == S + (D + (O + G)) by {
      assert img[q..] == img[p + x2..][2..];
    }
    assert BufferReaders.Skip(BufferReaders.Reader(img, p + x2), 2) == Ok(BufferReaders.Reader(img, q));
    BufferReaders.ReadBufferOf(img, q, S, D + (O + G));
    BufferReaders.ReadBufferOf(img, q + x2, D, O + G);
    BufferReaders.ReadBufferOf(img, q + 2 * x2, O, G);
    assert q + 3 * x2 == p + 4 * x2 + 2;
  }

  /** The glyph array read back from its image at the end of the window. */
  lemma {:induction false} GlyphsBack(img: seq<byte>, q: nat, glyphs: seq<u16>)
    requires q <= |img| && img[q..] == Image16(glyphs)
    ensures GlyphsOf(BufferReaders.Reader(img, q)) == glyphs
  {
    if |glyphs| > 0 {
      Values16Image(glyphs, []);
      AppendEmpty(Image16(glyphs));
    }
  }

  /** Decoding the four column images gives the segments back. */
  lemma {:induction false} ColumnsBack(segs: seq<Segment>)
    ensures SegmentsOf(Image16(Ends(segs)), Image16(Starts(segs)), Image16(Deltas(segs)), Image16(RangeOffsets(segs)), |segs|) == segs
  {
    Values16Image(Ends(segs), []);
    Values16Image(Starts(segs), []);
    Values16Image(Deltas(segs), []);
    Values16Image(RangeOffsets(segs), []);
    AppendEmpty(Image16(Ends(segs)));
    AppendEmpty(Image16(Starts(segs)));
    AppendEmpty(Image16(Deltas(segs)));
    AppendEmpty(Image16(RangeOffsets(segs)));
  }

  /** Format 6: a written image whose entryCount matches parses back to the written subtable. */
  lemma {:induction false} RoundTrip6(s: Subtable)
    requires s.Format6? && Parsable(s)
    ensures Parse6(BufferReaders.Fresh(SubtableImage(s))) == Ok(Written(s))
  {
    LayoutSizes();
    var h := Written(s).header6;
    var g := |s.glyphs6|;
    assert h.length == 10 + 2 * g && h.entryCount == g;
    var head := FixedTable.Serialize(Header6Layout, Row6(h));
    var body := Image16(s.glyphs6);
    var img := head + body;
    assert img == SubtableImage(s);
    FixedTable.RoundTripFresh(Header6Layout, Row6(h), body);
    DropPrefix(head, body, 10);
    assert |img| - 10 == 2 * g && (2 * g) / 2 == g;
    assert img[10..10 + 2 * g] == body;
    assert BufferReaders.ReadUnalignedAsPossible(BufferReaders.Reader(img, 10), 2) == Ok((body, BufferReaders.Reader(img, |img|)));
    Values16Image(s.glyphs6, []);
    AppendEmpty(body);
    assert Header6Of(Row6(h)) == h;
    Parse6Pieces(img, Row6(h), body, s.glyphs6);
  }

  /** A header image whose length is the whole and whose entryCount counts the values after it parses as format 6. */
  lemma {:induction false} Parse6Pieces(img: seq<byte>, row: seq<int>, body: seq<byte>, glyphs: seq<u16>)
    requires FixedTable.Deserialize(BufferReaders.Fresh(img), Header6Layout) == Ok((row, BufferReaders.Reader(img, 10)))
    requires Header6Of(row).length == |img| && Header6Of(row).entryCount == |body| / 2
    requires BufferReaders.ReadUnalignedAsPossible(BufferReaders.Reader(img, 10), 2) == Ok((body, BufferReaders.Reader(img, |img|)))
    requires Values16(body, |body| / 2) == glyphs
    ensures Parse6(BufferReaders.Fresh(img)) == Ok(Format6(Header6Of(row), glyphs))
  {
  }

  /** Format 12: the written image, of fewer than 2^32 bytes, parses back to the written subtable. */
  lemma {:induction false} RoundTrip12(s: Subtable)
    requires s.Format12? && Parsable(s)
    ensures Parse12(BufferReaders.Fresh(SubtableImage(s))) == Ok(Written(s))
  {
    LayoutSizes();
    var w := Written(s);
    var head := FixedTable.Serialize(Header12Layout, Row12(w.header12));
    var rows := GroupRows(s.groups);
    var body := EncodeArray(GroupLayout, rows);
    var img := head + body;
    TimesIsProduct(|s.groups|, 12);
    assert w.header12.numGroups == |s.groups|;
    FixedTable.RoundTripFresh(Header12Layout, Row12(w.header12), body);
    DropPrefix(head, body, 16);
    assert img[16..|img|] == body;
    BufferReaders.ReadRecords(img, 16, |img|, GroupLayout, rows);
    assert GroupsOf(rows) == s.groups;
  }

  /** The format a subtable's written header carries. */
  function FormatOf(s: Subtable): u16
  {
    match s
    case Format0(_, _) => 0
    case Format4(_, _, _) => 4
    case Format6(h, _) => h.format
    case Format12(_, _) => 12
  }

  /**
   * The words the cmap table reads to find a written subtable's extent:
   * the format first, then the length, which for format 12 is the 32-bit
   * word after a reserved one.  The length is the subtable's size cut to
   * the field's width.
   */
  lemma {:induction false} HeaderOfImage(s: Subtable)
    requires !(s.Format4? && |s.segments| == 0)
    ensures |SubtableImage(s)| >= 10 && U16At(SubtableImage(s), 0) == FormatOf(s)
    ensures s.Format12? ==> U32At(SubtableImage(s), 4) == SubtableSize(s) % 0x1_0000_0000
    ensures !s.Format12? ==> U16At(SubtableImage(s), 2) == SubtableSize(s) % 0x1_0000
  {
    match s
    case Format0(_, _) => HeaderOf0(s);
    case Format4(_, _, _) => HeaderOf4(s);
    case Format6(_, _) => HeaderOf6(s);
    case Format12(_, _) => HeaderOf12(s);
  }

  lemma {:induction false} HeaderOf0(s: Subtable)
    requires s.Format0?
    ensures |SubtableImage(s)| >= 10 && U16At(SubtableImage(s), 0) == 0 && U16At(SubtableImage(s), 2) == 262
  {
    LayoutSizes();
    var w := Written(s);
    ImageSize(s);
    ImageSize(w);
    HeaderWords(Header0Layout, Row0(w.header0), w.glyphs0);
  }

  lemma {:induction false} HeaderOf4(s: Subtable)
    requires s.Format4? && |s.segments| > 0
    ensures |SubtableImage(s)| >= 10 && U16At(SubtableImage(s), 0) == 4
    ensures U16At(SubtableImage(s), 2) == SubtableSize(s) % 0x1_0000
  {
    LayoutSizes();
    var w := Written(s);
    ImageSize(s);
    ImageSize(w);
    HeaderWords(Header4Layout, Row4(w.header4), Body4(w.segments, w.glyphIndexArray));
  }

  lemma {:induction false} HeaderOf6(s: Subtable)
    requires s.Format6?
    ensures |SubtableImage(s)| >= 10 && U16At(SubtableImage(s), 0) == s.header6.format
    ensures U16At(SubtableImage(s), 2) == SubtableSize(s) % 0x1_0000
  {
    LayoutSizes();
    var w := Written(s);
    ImageSize(s);
    ImageSize(w);
    HeaderWords(Header6Layout, Row6(w.header6), Image16(w.glyphs6));
  }

  lemma {:induction false} HeaderOf12(s: Subtable)
    requires s.Format12?
    ensures |SubtableImage(s)| >= 10 && U16At(SubtableImage(s), 0) == 12
    ensures U32At(SubtableImage(s), 4) == SubtableSize(s) % 0x1_0000_0000
  {
    LayoutSizes();
    var w := Written(s);
    ImageSize(s);
    ImageSize(w);
    HeaderWords(Header12Layout, Row12(w.header12), EncodeArray(GroupLayout, GroupRows(w.groups)));
  }

  /** The first words of a record image that starts with two 16-bit fields. */
  lemma {:induction false} HeaderWords(layout: Records.Layout, values: seq<int>, rest: seq<byte>)
    requires |layout| >= 3 && layout[0] == U16 && layout[1] == U16 && (layout[2] == U16 || layout[2] == U32)
    requires Conforms(layout, values)
    ensures var b := Encode(layout, values) + rest;
      |b| >= 4 + Width(layout[2]) && U16At(b, 0) == values[0] && U16At(b, 2) == values[1] &&
      (layout[2] == U32 ==> U32At(b, 4) == values[2])
  {
    var e := Encode(layout, values);
    var b := e + rest;
    assert Offset(layout, 1) == 2 by {
      assert layout[1..][0] == layout[1];
    }
    assert Offset(layout, 2) == 4 by {
      assert layout[1..][0] == layout[1];
      assert Offset(layout[1..], 1) == 2;
    }
    EncodeFieldAt(layout, values, 0, 0);
    EncodeFieldAt(layout, values, 1, 2);
    EncodeFieldAt(layout, values, 2, 4);
    assert b[0..2] == e[0..2] && b[2..4] == e[2..4];
    BE16RoundTrip(values[0], b, 0);
    BE16RoundTrip(values[1], b, 2);
    if layout[2] == U32 {
      assert b[4..8] == e[4..8];
      BE32RoundTrip(values[2], b, 4);
    }
  }

  /**
   * Every parsable subtable of formats 4, 6 and 12 parses back, by its
   * format's parser, to the written subtable; format 0 reads its header's
   * 6 bytes and the first 250 glyph entries as its glyph array.
   */
  lemma {:induction false} RoundTrip(s: Subtable)
    requires Parsable(s)
    ensures !s.Format0? ==> Parse(s, BufferReaders.Fresh(SubtableImage(s))) == Ok(Written(s))
    ensures s.Format0? ==> var w := Written(s);
      Parse(s, BufferReaders.Fresh(SubtableImage(s))) ==
        Ok(Format0(w.header0, FixedTable.Serialize(Header0Layout, Row0(w.header0)) + w.glyphs0[..250]))
  {
    match s
    case Format0(_, _) => RoundTrip0AsWritten(s);
    case Format4(_, _, _) => RoundTrip4(s);
    case Format6(_, _) => RoundTrip6(s);
    case Format12(_, _) => RoundTrip12(s);
  }
}
