/**
 * The `EBDT` table: a 4-byte version header, then the glyph bitmaps of
 * every section back to back.  A bitmap is one of the formats 1, 2, 6 and
 * 7 (its own metrics, then its pixels) or 5 (pixels only; the metrics live
 * in the monospace index subtable of `EBLC`).  Formats 1 and 6 are
 * byte-aligned per row, 2, 5 and 7 bit-aligned.
 *
 * A bitmap is counted with the size its `GetSize` reports, which is larger
 * than its image (the pixel part is counted in bits); the bytes between
 * the end of an image and the next bitmap are never written.
 *
 * Parsing needs, for every `EBLC` index subtable, the facts a `Locator`
 * holds; the sections come back in the order of the subtables.
 */
module Ebdt {
  import opened Wrappers
  import opened Bytes
  import opened Records
  import BufferReaders
  import FixedTable
  import ByteArrays
  import EbdtBits

  datatype EbdtHeader = EbdtHeader(majorVersion: u16, minorVersion: u16)

  /** The 5-byte metrics of formats 1 and 2. */
  datatype SmallMetrics = SmallMetrics(height: byte, width: byte, bearingX: i8, bearingY: i8, advance: byte)

  /** The 8-byte metrics of formats 6 and 7 and of the monospace index subtables. */
  datatype BigMetrics = BigMetrics(
    height: byte, width: byte, horiBearingX: i8, horiBearingY: i8, horiAdvance: byte,
    vertBearingX: i8, vertBearingY: i8, vertAdvance: byte)

  /** A `byte[w, h]`, column by column. */
  datatype Grid = Grid(w: nat, h: nat, cells: seq<seq<byte>>)

  type Pixels = g: Grid | EbdtBits.IsGrid(g.cells, g.w, g.h) witness Grid(0, 0, [])

  datatype Bitmap =
    | Bitmap1(small: SmallMetrics, pixels: Pixels)
    | Bitmap2(small: SmallMetrics, pixels: Pixels)
    | Bitmap5(pixels: Pixels)
    | Bitmap6(big: BigMetrics, pixels: Pixels)
    | Bitmap7(big: BigMetrics, pixels: Pixels)

  /** The sections in table order, each the bitmaps of one index subtable. */
  datatype EbdtTable = EbdtTable(header: EbdtHeader, sections: seq<seq<Bitmap>>)

  const HeaderLayout: Records.Layout := [U16, U16]
  const SmallLayout: Records.Layout := [U8, U8, I8, I8, U8]
  const BigLayout: Records.Layout := [U8, U8, I8, I8, U8, I8, I8, U8]

  lemma {:induction false} LayoutSizes()
    ensures Size(HeaderLayout) == 4 && Size(SmallLayout) == 5 && Size(BigLayout) == 8
  {
  }

  // ------------------------------------------------------------ records

  function HeaderRow(h: EbdtHeader): (v: seq<int>)
    ensures Conforms(HeaderLayout, v)
  {
    [h.majorVersion, h.minorVersion]
  }

  function SmallRow(m: SmallMetrics): (v: seq<int>)
    ensures Conforms(SmallLayout, v)
  {
    [m.height, m.width, m.bearingX, m.bearingY, m.advance]
  }

  function SmallOf(v: seq<int>): (m: SmallMetrics)
    requires Conforms(SmallLayout, v)
    ensures SmallRow(m) == v
  {
    SmallMetrics(v[0], v[1], v[2], v[3], v[4])
  }

  function BigRow(m: BigMetrics): (v: seq<int>)
    ensures Conforms(BigLayout, v)
  {
    [m.height, m.width, m.horiBearingX, m.horiBearingY, m.horiAdvance, m.vertBearingX, m.vertBearingY, m.vertAdvance]
  }

  function BigOf(v: seq<int>): (m: BigMetrics)
    requires Conforms(BigLayout, v)
    ensures BigRow(m) == v
  {
    BigMetrics(v[0], v[1], v[2], v[3], v[4], v[5], v[6], v[7])
  }

  // ------------------------------------------------------------ one bitmap

  /** The image format number of the bitmap's class. */
  function Format(b: Bitmap): u16
  {
    match b
    case Bitmap1(_, _) => 1
    case Bitmap2(_, _) => 2
    case Bitmap5(_) => 5
    case Bitmap6(_, _) => 6
    case Bitmap7(_, _) => 7
  }

  /** The formats that carry their own metrics. */
  predicate VariableFormat(format: int)
  {
    format == 1 || format == 2 || format == 6 || format == 7
  }

  /** Formats 1 and 6 start every row on a byte. */
  predicate ByteAlignedFormat(format: int)
  {
    format == 1 || format == 6
  }

  /** `Unsafe.SizeOf` of the format's metrics record. */
  function MetricsSize(format: int): nat
  {
    if format == 1 || format == 2 then 5 else if format == 6 || format == 7 then 8 else 0
  }

  /** The metrics record written at the start of the bitmap. */
  function MetricsImage(b: Bitmap): (s: seq<byte>)
    ensures |s| == MetricsSize(Format(b))
  {
    LayoutSizes();
    match b
    case Bitmap1(m, _) => FixedTable.Serialize(SmallLayout, SmallRow(m))
    case Bitmap2(m, _) => FixedTable.Serialize(SmallLayout, SmallRow(m))
    case Bitmap5(_) => []
    case Bitmap6(m, _) => FixedTable.Serialize(BigLayout, BigRow(m))
    case Bitmap7(m, _) => FixedTable.Serialize(BigLayout, BigRow(m))
  }

  /** The packed pixels, in the format's layout. */
  function PixelsImage(b: Bitmap): (s: seq<byte>)
  {
    var p := b.pixels;
    if ByteAlignedFormat(Format(b)) then EbdtBits.ByteAligned(p.cells, p.w, p.h)
    else EbdtBits.BitAligned(p.cells, p.w, p.h)
  }

  /** The bytes the bitmap's `Serialize` writes: its metrics, then its pixels. */
  function Image(b: Bitmap): seq<byte>
  {
    MetricsImage(b) + PixelsImage(b)
  }

  /** The bitmap's `GetSize`: its metrics record plus the pixel size helper of its layout. */
  function BitmapSize(b: Bitmap): nat
  {
    var p := b.pixels;
    MetricsSize(Format(b)) +
      (if ByteAlignedFormat(Format(b)) then EbdtBits.ByteAlignedSize(p.w, p.h) else EbdtBits.BitAlignedSize(p.w, p.h))
  }

  /** The image always fits in the size `GetSize` reports. */
  lemma {:induction false} ImageFits(b: Bitmap)
    ensures |Image(b)| <= BitmapSize(b)
  {
  }

  /**
   * The bitmap's `Serialize` into the span of `length` bytes at `at`.
   * Formats 1, 2, 6 and 7 throw ArgumentOutOfRangeException, writing
   * nothing, when the span is shorter than their `GetSize`; format 5 checks
   * nothing and fails with IndexOutOfRangeException at the first byte past
   * the span.  Otherwise the image is written at the start of the span.
   */
  method SerializeBitmap(b: Bitmap, dest: array<byte>, at: nat, length: nat) returns (res: Result<()>)
    requires at + length <= dest.Length
    modifies dest
    ensures !b.Bitmap5? ==> (res.Ok? <==> BitmapSize(b) <= length)
    ensures b.Bitmap5? ==> (res.Ok? <==> |Image(b)| <= length)
    ensures res.Err? ==> res.error == (if b.Bitmap5? then IndexOutOfRange else ArgumentOutOfRange)
    ensures res.Err? && !b.Bitmap5? ==> dest[..] == old(dest[..])
    ensures res.Ok? ==> dest[..] == Overwrite(old(dest[..]), at, Image(b))
  {
    var p := b.pixels;
    if b.Bitmap5? {
      if length < (p.w * p.h + 7) / 8 {
        return Err(IndexOutOfRange);
      }
      assert Image(b) == EbdtBits.BitAligned(p.cells, p.w, p.h);
      EbdtBits.SerializeBitAligned(p.cells, p.w, p.h, dest, at);
      return Ok(());
    }
    if length < BitmapSize(b) {
      return Err(ArgumentOutOfRange);
    }
    SerializeWithMetrics(b, dest, at);
    res := Ok(());
  }

  /** A bitmap with a metrics record: the record, then the pixels right after it. */
  method SerializeWithMetrics(b: Bitmap, dest: array<byte>, at: nat)
    requires !b.Bitmap5? && at + BitmapSize(b) <= dest.Length
    modifies dest
    ensures dest[..] == Overwrite(old(dest[..]), at, Image(b))
  {
    ImageFits(b);
    ghost var d0 := dest[..];
    var metrics := MetricsImage(b);
    ByteArrays.CopyInto(dest, at, metrics);
    assert at + |metrics| + |PixelsImage(b)| <= dest.Length;
    SerializePixels(b, dest, at + |metrics|);
    OverwriteConcat(d0, at, metrics, PixelsImage(b));
  }

  /** The pixels of a bitmap in its format's layout. */
  method SerializePixels(b: Bitmap, dest: array<byte>, at: nat)
    requires at + |PixelsImage(b)| <= dest.Length
    modifies dest
    ensures dest[..] == Overwrite(old(dest[..]), at, PixelsImage(b))
  {
    var p := b.pixels;
    if ByteAlignedFormat(Format(b)) {
      EbdtBits.SerializeByteAligned(p.cells, p.w, p.h, dest, at);
    } else {
      EbdtBits.SerializeBitAligned(p.cells, p.w, p.h, dest, at);
    }
  }

  // ------------------------------------------------------------ the table

  /** The bitmaps of the sections in order: the nested `foreach` of `Serialize`. */
  function Flat(ss: seq<seq<Bitmap>>): seq<Bitmap>
  {
    if ss == [] then [] else Flat(ss[..|ss| - 1]) + ss[|ss| - 1]
  }

  /** The sum of the bitmaps' `GetSize`. */
  function SizeOf(bs: seq<Bitmap>): nat
  {
    if bs == [] then 0 else SizeOf(bs[..|bs| - 1]) + BitmapSize(bs[|bs| - 1])
  }

  lemma {:induction false} SizeOfConcat(a: seq<Bitmap>, b: seq<Bitmap>)
    ensures SizeOf(a + b) == SizeOf(a) + SizeOf(b)
    decreases |b|
  {
    if b == [] {
      assert a + b == a;
    } else {
      assert (a + b)[..|a + b| - 1] == a + b[..|b| - 1];
      SizeOfConcat(a, b[..|b| - 1]);
    }
  }

  /** `GetSize`: the header and every bitmap of every section. */
  function GetSize(t: EbdtTable): nat
  {
    4 + SizeOf(Flat(t.sections))
  }

  /** `Validate`: the version becomes 2.0. */
  function Validate(t: EbdtTable): (v: EbdtTable)
    ensures v.header == EbdtHeader(2, 0) && v.sections == t.sections
  {
    t.(header := EbdtHeader(2, 0))
  }

  function HeaderImage(h: EbdtHeader): (s: seq<byte>)
    ensures |s| == 4
  {
    LayoutSizes();
    FixedTable.Serialize(HeaderLayout, HeaderRow(h))
  }

  /** d with the images of bs written one after another from `at`, each bitmap taking its `GetSize`. */
  function Place(d: seq<byte>, at: nat, bs: seq<Bitmap>): (r: seq<byte>)
    requires at + SizeOf(bs) <= |d|
    ensures |r| == |d|
  {
    if bs == [] then d
    else
      var p := bs[..|bs| - 1];
      ImageFits(bs[|bs| - 1]);
      Overwrite(Place(d, at, p), at + SizeOf(p), Image(bs[|bs| - 1]))
  }

  /** What `Serialize` leaves in a destination that held d: the header at 0, the bitmaps after it. */
  function Laid(d: seq<byte>, t: EbdtTable): (r: seq<byte>)
    requires GetSize(t) <= |d|
    ensures |r| == |d|
  {
    Place(Overwrite(d, 0, HeaderImage(t.header)), 4, Flat(t.sections))
  }

  /** A prefix of the sections holds no more than all of them. */
  lemma {:induction false} FlatPrefix(ss: seq<seq<Bitmap>>, i: nat)
    requires i <= |ss|
    ensures SizeOf(Flat(ss[..i])) <= SizeOf(Flat(ss))
    decreases |ss| - i
  {
    if i < |ss| {
      FlatPrefix(ss, i + 1);
      assert ss[..i + 1][..i] == ss[..i];
      SizeOfConcat(Flat(ss[..i]), ss[i]);
    } else {
      assert ss[..i] == ss;
    }
  }

  /** The bitmaps of s up to j after p, and their size within p + s. */
  lemma {:induction false} PrefixNext(p: seq<Bitmap>, s: seq<Bitmap>, j: nat)
    requires j < |s|
    ensures (p + s[..j]) + [s[j]] == p + s[..j + 1]
    ensures SizeOf(p + s[..j + 1]) == SizeOf(p + s[..j]) + BitmapSize(s[j])
    ensures SizeOf(p + s[..j + 1]) <= SizeOf(p + s)
  {
    assert p + s == (p + s[..j + 1]) + s[j + 1..];
    SizeOfConcat(p + s[..j + 1], s[j + 1..]);
    assert (p + s[..j]) + [s[j]] == p + s[..j + 1];
    SizeOfSnoc(p + s[..j], s[j]);
  }

  lemma {:induction false} SizeOfSnoc(p: seq<Bitmap>, b: Bitmap)
    ensures SizeOf(p + [b]) == SizeOf(p) + BitmapSize(b)
  {
    assert (p + [b])[..|p|] == p;
  }

  lemma {:induction false} PlaceSnoc(d: seq<byte>, at: nat, p: seq<Bitmap>, b: Bitmap)
    requires at + SizeOf(p) + BitmapSize(b) <= |d|
    ensures SizeOf(p + [b]) == SizeOf(p) + BitmapSize(b) && |Image(b)| <= BitmapSize(b)
    ensures Place(d, at, p + [b]) == Overwrite(Place(d, at, p), at + SizeOf(p), Image(b))
  {
    SizeOfSnoc(p, b);
    ImageFits(b);
    var q := p + [b];
    assert q[..|q| - 1] == p && q[|q| - 1] == b;
    PlaceLast(d, at, q);
  }

  /** The last bitmap is written over the ones before it. */
  lemma {:induction false} PlaceLast(d: seq<byte>, at: nat, q: seq<Bitmap>)
    requires q != [] && at + SizeOf(q) <= |d|
    ensures at + SizeOf(q[..|q| - 1]) + BitmapSize(q[|q| - 1]) <= |d| && |Image(q[|q| - 1])| <= BitmapSize(q[|q| - 1])
    ensures Place(d, at, q) ==
      Overwrite(Place(d, at, q[..|q| - 1]), at + SizeOf(q[..|q| - 1]), Image(q[|q| - 1]))
  {
    ImageFits(q[|q| - 1]);
  }

  /** Section i after the sections before it is the prefix of the sections up to it. */
  lemma {:induction false} SectionNext(ss: seq<seq<Bitmap>>, i: nat)
    requires i < |ss|
    ensures Flat(ss[..i]) + ss[i] == Flat(ss[..i + 1])
    ensures SizeOf(Flat(ss[..i + 1])) <= SizeOf(Flat(ss))
  {
    assert ss[..i + 1][..i] == ss[..i];
    FlatPrefix(ss, i + 1);
  }

  /** One turn of the inner loop of `Serialize`: bitmap b into its span at the cursor. */
  method SerializeNext(dest: array<byte>, ghost d1: seq<byte>, ghost p: seq<Bitmap>, b: Bitmap, cursor: nat)
    returns (cursor': nat)
    requires |d1| == dest.Length && 4 + SizeOf(p) + BitmapSize(b) <= dest.Length
    requires dest[..] == Place(d1, 4, p) && cursor == SizeOf(p)
    modifies dest
    ensures dest[..] == Place(d1, 4, p + [b]) && cursor' == SizeOf(p + [b])
  {
    PlaceSnoc(d1, 4, p, b);
    var size := BitmapSize(b);
    ImageFits(b);
    var _ := SerializeBitmap(b, dest, 4 + cursor, size);
    cursor' := cursor + size;
  }

  /** The inner loop of `Serialize`: the bitmaps of one section after the bitmaps p already placed. */
  method SerializeSection(section: seq<Bitmap>, dest: array<byte>, ghost d1: seq<byte>, ghost p: seq<Bitmap>, cursor: nat)
    returns (cursor': nat)
    requires |d1| == dest.Length && 4 + SizeOf(p + section) <= dest.Length
    requires cursor == SizeOf(p) && 4 + cursor <= dest.Length && dest[..] == Place(d1, 4, p)
    modifies dest
    ensures dest[..] == Place(d1, 4, p + section) && cursor' == SizeOf(p + section)
  {
    var j := 0;
    cursor' := cursor;
    SectionEnds(p, section);
    while j < |section|
      invariant j <= |section| && cursor' == SizeOf(p + section[..j]) && 4 + cursor' <= dest.Length
      invariant dest[..] == Place(d1, 4, p + section[..j])
    {
      PrefixNext(p, section, j);
      cursor' := SerializeNext(dest, d1, p + section[..j], section[j], cursor');
      j := j + 1;
    }
  }

  /** No bitmap of s after p is p; all of them are s. */
  lemma {:induction false} SectionEnds(p: seq<Bitmap>, s: seq<Bitmap>)
    ensures p + s[..0] == p && s[..|s|] == s
  {
  }

  method Serialize(t: EbdtTable, dest: array<byte>) returns (res: Result<()>)
    modifies dest
    ensures res.Err? <==> dest.Length < GetSize(t)
    ensures res.Err? ==> res.error == ArgumentOutOfRange && dest[..] == old(dest[..])
    ensures res.Ok? ==> dest[..] == Laid(old(dest[..]), t)
  {
    if dest.Length < GetSize(t) {
      return Err(ArgumentOutOfRange);
    }
    ByteArrays.CopyInto(dest, 0, HeaderImage(t.header));
    ghost var d1 := dest[..];
    var cursor := 0;
    var i := 0;
    while i < |t.sections|
      invariant i <= |t.sections| && cursor == SizeOf(Flat(t.sections[..i])) && 4 + cursor <= dest.Length
      invariant dest[..] == Place(d1, 4, Flat(t.sections[..i]))
    {
      SectionNext(t.sections, i);
      cursor := SerializeSection(t.sections[i], dest, d1, Flat(t.sections[..i]), cursor);
      i := i + 1;
    }
    assert t.sections[..i] == t.sections;
    res := Ok(());
  }
}
