/**
 * Reading the `EBDT` table back.  What the glyph bitmaps of a section are
 * depends on the `EBLC` index subtable that points at it: a monospace
 * subtable (index format 2) gives the image size and the metrics every
 * glyph shares, a variable-metrics subtable (index formats 1 and 3) the
 * offset of every glyph.  A `Locator` holds what the reader takes from the
 * subtable, and the sections come back in the order of the subtables.
 *
 * Offsets and sizes are `uint` values cast to `int`, so a value of 2^31 or
 * more turns negative and fails the slice that uses it.
 */
module EbdtRead {
  import opened Wrappers
  import opened Bytes
  import opened Ebdt
  import BufferReaders
  import FixedTable
  import EbdtBits

  type Reader = BufferReaders.Reader

  /** What `Deserialize` reads from one `EBLC` index subtable. */
  datatype Locator =
    | MonospaceLocator(imageFormat: u16, imageDataOffset: u32, numGlyphs: int, imageSize: u32, metrics: BigMetrics)
    | VariableLocator(imageFormat: u16, imageDataOffset: u32, numGlyphs: int, offsets: seq<u32>)

  /** `(int)` of a `uint`. */
  function Int(u: u32): int
  {
    Signed(32, u)
  }

  /** The `int` difference `next - from`, which wraps around. */
  function Diff(next: int, from: int): int
    requires -0x8000_0000 <= next < 0x8000_0000 && -0x8000_0000 <= from < 0x8000_0000
  {
    Signed(32, (next - from) % 0x1_0000_0000)
  }

  // ------------------------------------------------------------ one bitmap

  function ReadSmall(r: Reader): (res: Result<(SmallMetrics, Reader)>)
    ensures res.Ok? ==> res.value.1 == BufferReaders.Advance(r, 5)
  {
    LayoutSizes();
    var x :- FixedTable.Deserialize(r, SmallLayout);
    Ok((SmallOf(x.0), x.1))
  }

  function ReadBig(r: Reader): (res: Result<(BigMetrics, Reader)>)
    ensures res.Ok? ==> res.value.1 == BufferReaders.Advance(r, 8)
  {
    LayoutSizes();
    var x :- FixedTable.Deserialize(r, BigLayout);
    Ok((BigOf(x.0), x.1))
  }

  /** The pixels of a bitmap w x h read by the pixel reader of the format's layout, the byte-aligned one as written. */
  function PixelsRead(format: u16, r: Reader, w: byte, h: byte): (res: Result<Pixels>)
    ensures res.Ok? ==> res.value.w == w && res.value.h == h
  {
    if ByteAlignedFormat(format) then
      var x :- EbdtBits.ByteAlignedReadAsWritten(r, w, h);
      var p: Pixels := Grid(w, h, x.0);
      Ok(p)
    else
      var x :- EbdtBits.BitAlignedRead(r, w, h);
      var p: Pixels := Grid(w, h, x.0);
      Ok(p)
  }

  /**
   * `Deserialize` of a bitmap of format 1, 2, 6 or 7: its metrics record,
   * then the pixels of a bitmap as wide and as high as the metrics say.
   */
  function BitmapRead(format: u16, r: Reader): (res: Result<Bitmap>)
    requires VariableFormat(format)
    ensures res.Ok? ==> Format(res.value) == format
  {
    if format == 1 || format == 2 then
      var m :- ReadSmall(r);
      var p :- PixelsRead(format, m.1, m.0.width, m.0.height);
      Ok(if format == 1 then Bitmap1(m.0, p) else Bitmap2(m.0, p))
    else
      var m :- ReadBig(r);
      var p :- PixelsRead(format, m.1, m.0.width, m.0.height);
      Ok(if format == 6 then Bitmap6(m.0, p) else Bitmap7(m.0, p))
  }

  /**
   * `TtfTableEbdtGlyphBitmap5.Deserialize`: the next `imageSize` bytes, in
   * which the glyph's pixels lie bit-aligned, as wide and as high as the
   * subtable's metrics say.
   */
  function Bitmap5Read(r: Reader, m: BigMetrics, imageSize: u32): (res: Result<(Bitmap, Reader)>)
    ensures res.Ok? ==> 0 <= Int(imageSize) && res.value.0.Bitmap5? && res.value.1 == BufferReaders.Advance(r, Int(imageSize))
  {
    var x :- BufferReaders.ReadBytes(r, Int(imageSize));
    var g :- EbdtBits.MonospaceReadAsWritten(x.0, m.width, m.height);
    Ok((Bitmap5(Grid(m.width, m.height, g)), x.1))
  }

  // ------------------------------------------------------------ one section

  /** The per-glyph read of a monospace section. */
  function MonoEntry(m: BigMetrics, imageSize: u32): Reader -> Result<(Bitmap, Reader)>
  {
    (r: Reader) => Bitmap5Read(r, m, imageSize)
  }

  /** The glyphs of a monospace section: n images of `imageSize` bytes one after another. */
  function MonospaceGlyphs(r: Reader, m: BigMetrics, imageSize: u32, n: nat): (res: Result<seq<Bitmap>>)
    ensures res.Ok? ==> |res.value| == n
  {
    var x :- BufferReaders.ReadMany(r, n, MonoEntry(m, imageSize));
    Ok(x.0)
  }

  /** Glyph i of a variable-metrics section: the bytes from offset i up to offset i + 1. */
  function GlyphAt(r: Reader, format: u16, offsets: seq<u32>, i: nat): Result<Bitmap>
    requires VariableFormat(format) && i + 1 < |offsets|
  {
    var from := Int(offsets[i]);
    var glyph :- BufferReaders.SliceFromStartLength(r, from, Diff(Int(offsets[i + 1]), from));
    BitmapRead(format, glyph)
  }

  /** The glyph reads of a variable-metrics section, one per pair of neighbouring offsets. */
  function GlyphReads(r: Reader, format: u16, offsets: seq<u32>): (f: nat --> Result<Bitmap>)
    requires VariableFormat(format)
    ensures forall j: nat :: j + 1 < |offsets| ==> f.requires(j) && f(j) == GlyphAt(r, format, offsets, j)
  {
    (j: nat) requires j + 1 < |offsets| => GlyphAt(r, format, offsets, j)
  }

  /** The first n glyphs of a variable-metrics section, read in order. */
  function VariableGlyphs(r: Reader, format: u16, offsets: seq<u32>, n: nat): (res: Result<seq<Bitmap>>)
    requires VariableFormat(format) && n < |offsets|
    ensures res.Ok? ==> |res.value| == n
  {
    Gather(GlyphReads(r, format, offsets), n)
  }

  /** The loop count of `for (i = 0; i < numGlyphs; i++)`. */
  function Count(numGlyphs: int): nat
  {
    if numGlyphs < 0 then 0 else numGlyphs
  }

  /**
   * The section of one index subtable, read from `imageDataOffset` on.  A
   * monospace subtable needs image format 5; a variable-metrics one refuses
   * 5 and any format but 1, 2, 6 and 7, and needs numGlyphs + 1 offsets.
   */
  function SectionRead(data: Reader, loc: Locator): (res: Result<seq<Bitmap>>)
  {
    var reader :- BufferReaders.SliceFromStart(data, Int(loc.imageDataOffset));
    match loc
    case MonospaceLocator(format, _, numGlyphs, imageSize, m) =>
      if format != 5 then Err(NotSupported)
      else MonospaceGlyphs(reader, m, imageSize, Count(numGlyphs))
    case VariableLocator(format, _, numGlyphs, offsets) =>
      if format == 5 || !VariableFormat(format) then Err(NotSupported)
      else if |offsets| < numGlyphs + 1 then Err(InvalidOperation(""))
      else if |offsets| == 0 then Ok([])
      else VariableGlyphs(reader, format, offsets, Count(numGlyphs))
  }

  // ------------------------------------------------------------ the table

  /** The sections of the first k index subtables, in order. */
  function Sections(data: Reader, locs: seq<Locator>, k: nat): (res: Result<seq<seq<Bitmap>>>)
    requires k <= |locs|
    ensures res.Ok? ==> |res.value| == k
  {
    Gather(SectionReads(data, locs), k)
  }

  /** The section reads of the table, one per index subtable. */
  function SectionReads(data: Reader, locs: seq<Locator>): (f: nat --> Result<seq<Bitmap>>)
    ensures forall j: nat :: j < |locs| ==> f.requires(j) && f(j) == SectionRead(data, locs[j])
  {
    (j: nat) requires j < |locs| => SectionRead(data, locs[j])
  }

  /** `Deserialize`: the header, which must be version 2.0, then a section per index subtable. */
  function Parse(data: Reader, locs: seq<Locator>): (res: Result<(EbdtTable, Reader)>)
    ensures res.Ok? ==> res.value.0.header == EbdtHeader(2, 0) && |res.value.0.sections| == |locs|
  {
    LayoutSizes();
    var h :- FixedTable.Deserialize(data, HeaderLayout);
    if h.0[0] != 2 || h.0[1] != 0 then Err(NotSupported)
    else
      var ss :- Sections(data, locs, |locs|);
      Ok((EbdtTable(EbdtHeader(2, 0), ss), h.1))
  }

  // ------------------------------------------------------------ the reading loops

  /** The pixel reader of the format's layout, with its loops. */
  method DeserializePixels(format: u16, r: Reader, w: byte, h: byte) returns (res: Result<Pixels>)
    ensures res == PixelsRead(format, r, w, h)
  {
    var x;
    if ByteAlignedFormat(format) {
      x := EbdtBits.ReadByteAligned(r, w, h);
    } else {
      x := EbdtBits.ReadBitAligned(r, w, h);
    }
    if x.Err? {
      return Err(x.error);
    }
    var p: Pixels := Grid(w, h, x.value.0);
    res := Ok(p);
  }

  /** `Deserialize` of the bitmap classes 1, 2, 6 and 7 on the glyph's reader. */
  method DeserializeBitmap(format: u16, r: Reader) returns (res: Result<Bitmap>)
    requires VariableFormat(format)
    ensures res == BitmapRead(format, r)
  {
    if format == 1 || format == 2 {
      var m := ReadSmall(r);
      if m.Err? {
        return Err(m.error);
      }
      var p := DeserializePixels(format, m.value.1, m.value.0.width, m.value.0.height);
      if p.Err? {
        return Err(p.error);
      }
      res := Ok(if format == 1 then Bitmap1(m.value.0, p.value) else Bitmap2(m.value.0, p.value));
    } else {
      var m := ReadBig(r);
      if m.Err? {
        return Err(m.error);
      }
      var p := DeserializePixels(format, m.value.1, m.value.0.width, m.value.0.height);
      if p.Err? {
        return Err(p.error);
      }
      res := Ok(if format == 6 then Bitmap6(m.value.0, p.value) else Bitmap7(m.value.0, p.value));
    }
  }

  /** `TtfTableEbdtGlyphBitmap5.Deserialize`: `ReadBytes(imageSize)`, then the pixel loop. */
  method DeserializeBitmap5(r: Reader, m: BigMetrics, imageSize: u32) returns (res: Result<(Bitmap, Reader)>)
    ensures res == Bitmap5Read(r, m, imageSize)
  {
    var x := BufferReaders.ReadBytes(r, Int(imageSize));
    if x.Err? {
      return Err(x.error);
    }
    var g := EbdtBits.ReadMonospace(x.value.0, m.width, m.height);
    if g.Err? {
      return Err(g.error);
    }
    res := Ok((Bitmap5(Grid(m.width, m.height, g.value)), x.value.1));
  }

  /** The monospace loop: numGlyphs bitmaps, each from where the previous one ended. */
  method DeserializeMonospace(reader: Reader, m: BigMetrics, imageSize: u32, numGlyphs: int) returns (res: Result<seq<Bitmap>>)
    ensures res == MonospaceGlyphs(reader, m, imageSize, Count(numGlyphs))
  {
    ghost var n := Count(numGlyphs);
    ghost var entry := MonoEntry(m, imageSize);
    var section: seq<Bitmap> := [];
    var r := reader;
    var i := 0;
    BufferReaders.PrependNil(BufferReaders.ReadMany(reader, n, entry));
    while i < numGlyphs
      invariant i <= n && BufferReaders.ReadMany(reader, n, entry) == BufferReaders.Prepend(section, BufferReaders.ReadMany(r, n - i, entry))
    {
      var bitmap := DeserializeBitmap5(r, m, imageSize);
      assert entry(r) == bitmap;
      BufferReaders.ReadManyStep(section, r, n - i - 1, entry);
      if bitmap.Err? {
        return Err(bitmap.error);
      }
      section := section + [bitmap.value.0];
      r := bitmap.value.1;
      i := i + 1;
    }
    assert section + [] == section;
    res := Ok(section);
  }

  /**
   * The variable-metrics `Process`: numGlyphs + 1 offsets are needed, and
   * glyph i is read from its own slice between offsets i and i + 1.
   */
  method DeserializeVariable(reader: Reader, format: u16, offsets: seq<u32>, numGlyphs: int) returns (res: Result<seq<Bitmap>>)
    requires VariableFormat(format)
    ensures |offsets| < numGlyphs + 1 ==> res == Err(InvalidOperation(""))
    ensures numGlyphs + 1 <= |offsets| == 0 ==> res == Ok([])
    ensures 0 < |offsets| && numGlyphs + 1 <= |offsets| ==> res == VariableGlyphs(reader, format, offsets, Count(numGlyphs))
  {
    var offsetCount := |offsets|;
    if offsetCount < numGlyphs + 1 {
      return Err(InvalidOperation(""));
    }
    if offsetCount > 0 {
      res := DeserializeGlyphs(reader, format, offsets, numGlyphs);
    } else {
      res := Ok([]);
    }
  }

  /** The glyph loop of `Process`, with `offsetCursor` the offset of the glyph to read. */
  method DeserializeGlyphs(reader: Reader, format: u16, offsets: seq<u32>, numGlyphs: int) returns (res: Result<seq<Bitmap>>)
    requires VariableFormat(format) && 0 < |offsets| && numGlyphs + 1 <= |offsets|
    ensures res == VariableGlyphs(reader, format, offsets, Count(numGlyphs))
  {
    var section: seq<Bitmap> := [];
    var offsetCursor := Int(offsets[0]);
    var i := 0;
    while i < numGlyphs
      invariant i <= Count(numGlyphs) && offsetCursor == Int(offsets[i])
      invariant VariableGlyphs(reader, format, offsets, i) == Ok(section)
    {
      var bitmap := DeserializeGlyphNext(reader, format, offsets, numGlyphs, i, offsetCursor, section);
      if bitmap.Err? {
        return Err(bitmap.error);
      }
      section := section + [bitmap.value];
      offsetCursor := Int(offsets[i + 1]);
      i := i + 1;
    }
    assert i == Count(numGlyphs);
    res := Ok(section);
  }

  /** A turn of the glyph loop, with what it does to the section read so far. */
  method DeserializeGlyphNext(reader: Reader, format: u16, offsets: seq<u32>, numGlyphs: int, i: nat, offsetCursor: int,
                              section: seq<Bitmap>) returns (res: Result<Bitmap>)
    requires VariableFormat(format) && i < Count(numGlyphs) && numGlyphs + 1 <= |offsets| && offsetCursor == Int(offsets[i])
    requires VariableGlyphs(reader, format, offsets, i) == Ok(section)
    ensures res.Ok? ==> VariableGlyphs(reader, format, offsets, i + 1) == Ok(section + [res.value])
    ensures res.Err? ==> VariableGlyphs(reader, format, offsets, Count(numGlyphs)) == Err(res.error)
  {
    res := DeserializeGlyph(reader, format, offsets, i, offsetCursor);
    GatherStep(GlyphReads(reader, format, offsets), i, Count(numGlyphs), section, res);
  }

  /** One turn of the `Process` loop: the glyph's slice, then its bitmap. */
  method DeserializeGlyph(reader: Reader, format: u16, offsets: seq<u32>, i: nat, offsetCursor: int) returns (res: Result<Bitmap>)
    requires VariableFormat(format) && i + 1 < |offsets| && offsetCursor == Int(offsets[i])
    ensures res == GlyphAt(reader, format, offsets, i)
  {
    var next := Int(offsets[i + 1]);
    var length := Diff(next, offsetCursor);
    var glyphReader := BufferReaders.SliceFromStartLength(reader, offsetCursor, length);
    if glyphReader.Err? {
      return Err(glyphReader.error);
    }
    res := DeserializeBitmap(format, glyphReader.value);
  }

  /** One index subtable's section, as the body of the `Deserialize` loop reads it. */
  method DeserializeSection(data: Reader, loc: Locator) returns (res: Result<seq<Bitmap>>)
    ensures res == SectionRead(data, loc)
  {
    var start := BufferReaders.SliceFromStart(data, Int(loc.imageDataOffset));
    if start.Err? {
      return Err(start.error);
    }
    if loc.MonospaceLocator? {
      if loc.imageFormat != 5 {
        return Err(NotSupported);
      }
      res := DeserializeMonospace(start.value, loc.metrics, loc.imageSize, loc.numGlyphs);
    } else {
      if loc.imageFormat == 5 || !VariableFormat(loc.imageFormat) {
        return Err(NotSupported);
      }
      res := DeserializeVariable(start.value, loc.imageFormat, loc.offsets, loc.numGlyphs);
    }
  }

  /** `Deserialize`: the header, then a section for every index subtable of every size, in order. */
  method Deserialize(data: Reader, locs: seq<Locator>) returns (res: Result<(EbdtTable, Reader)>)
    ensures res == Parse(data, locs)
  {
    LayoutSizes();
    var h := FixedTable.Deserialize(data, HeaderLayout);
    if h.Err? {
      return Err(h.error);
    }
    var header := h.value.0;
    if header[0] != 2 || header[1] != 0 {
      return Err(NotSupported);
    }
    var sections: seq<seq<Bitmap>> := [];
    for k := 0 to |locs|
      invariant Sections(data, locs, k) == Ok(sections)
    {
      var s := DeserializeSection(data, locs[k]);
      GatherStep(SectionReads(data, locs), k, |locs|, sections, s);
      if s.Err? {
        return Err(s.error);
      }
      sections := sections + [s.value];
    }
    res := Ok((EbdtTable(EbdtHeader(2, 0), sections), h.value.1));
  }
}
