/**
 * The `loca` table: where each glyph's entry starts in `glyf`, one offset per
 * entry boundary (one more than there are entries).  The short format stores
 * half of each byte position in 16 bits, the long format the position itself
 * in 32 bits.
 */
module Loca {
  import opened Wrappers
  import opened Bytes
  import opened Records
  import opened RecordArrays
  import BufferReaders
  import GlyfTable
  import Head

  datatype FormatMode = Short | Long

  datatype LocaTable = LocaTable(offsets: seq<u32>, formatMode: FormatMode)

  // ------------------------------------------------------------ validation

  /** A byte position the short format is used for: even and at most 0xFFFF. */
  predicate ShortPosition(cursor: nat)
  {
    cursor % 2 == 0 && cursor <= 0xFFFF
  }

  /** Every boundary from the table's start up to that after entry n - 1 is a short position. */
  predicate FitsUpTo(align: bool, entries: seq<GlyfTable.Entry>, n: nat)
    requires n <= |entries|
  {
    forall i :: 0 <= i <= n ==> ShortPosition(GlyfTable.Offset(align, entries, i))
  }

  /** The format `Validate` picks: short exactly when every boundary is a short position. */
  function ModeFor(align: bool, entries: seq<GlyfTable.Entry>): FormatMode
  {
    if FitsUpTo(align, entries, |entries|) then Short else Long
  }

  /** What is stored for a byte position: in the long format the position cut to 32 bits, in the short one its half cut to 16 bits. */
  function Stored(mode: FormatMode, cursor: nat): u32
  {
    if mode == Long then cursor % 0x1_0000_0000 else (cursor / 2) % 0x1_0000
  }

  /** The stored offsets of the boundaries 0 .. n. */
  function StoredOffsets(mode: FormatMode, align: bool, entries: seq<GlyfTable.Entry>, n: nat): (s: seq<u32>)
    requires n <= |entries|
    ensures |s| == n + 1
  {
    if n == 0 then [0]
    else StoredOffsets(mode, align, entries, n - 1) + [Stored(mode, GlyfTable.Offset(align, entries, n))]
  }

  /** The table `Validate` leaves: the format for the glyf table, then one stored offset per boundary. */
  function Validated(glyf: GlyfTable.GlyfTable): LocaTable
  {
    var mode := ModeFor(glyf.align, glyf.entries);
    LocaTable(StoredOffsets(mode, glyf.align, glyf.entries, |glyf.entries|), mode)
  }

  /**
   * `Validate` against the glyf table: the format its first loop picks, then
   * the offsets its second loop stores.  The table's old offsets are
   * discarded.
   */
  method Validate(t: LocaTable, glyf: GlyfTable.GlyfTable) returns (res: LocaTable)
    ensures res == Validated(glyf)
  {
    var mode := PickFormat(glyf);
    var offsets := StoreOffsets(glyf, mode);
    res := t.(offsets := offsets, formatMode := mode);
  }

  /**
   * The first loop of `Validate`: over the non-null entries, stopping at the
   * first boundary that is odd or past 0xFFFF, which makes the format long.
   */
  method PickFormat(glyf: GlyfTable.GlyfTable) returns (mode: FormatMode)
    ensures mode == ModeFor(glyf.align, glyf.entries)
  {
    var align := glyf.align;
    var entries := glyf.entries;
    var cursor: nat := 0;
    var useLongFormat := false;
    FitsStart(align, entries);
    for i := 0 to |entries|
      invariant !useLongFormat
      invariant cursor == GlyfTable.Offset(align, entries, i) && FitsUpTo(align, entries, i)
    {
      FitsStep(align, entries, i);
      var e := entries[i];
      if e.None? {
        continue;
      }
      var size := GlyfTable.Room(align, e.value);
      cursor := cursor + size;
      if cursor % 2 == 1 || cursor > 0xFFFF {
        useLongFormat := true;
        LongOnceUnfit(align, entries, i + 1);
        break;
      }
    }
    mode := if useLongFormat then Long else Short;
  }

  /** The second loop of `Validate`: the first offset 0, then the stored form of each entry's end. */
  method StoreOffsets(glyf: GlyfTable.GlyfTable, mode: FormatMode) returns (offsets: seq<u32>)
    ensures offsets == StoredOffsets(mode, glyf.align, glyf.entries, |glyf.entries|)
  {
    var align := glyf.align;
    var entries := glyf.entries;
    var useLongFormat := mode == Long;
    var cursor: nat := 0;
    offsets := [0];
    FitsStart(align, entries);
    for i := 0 to |entries|
      invariant cursor == GlyfTable.Offset(align, entries, i)
      invariant offsets == StoredOffsets(mode, align, entries, i)
    {
      GlyfTable.OffsetStep(align, entries, i);
      var e := entries[i];
      if e.Some? {
        var size := GlyfTable.Room(align, e.value);
        cursor := cursor + size;
      }
      offsets := offsets + [if useLongFormat then cursor % 0x1_0000_0000 else (cursor / 2) % 0x1_0000];
    }
  }

  lemma {:induction false} FitsStart(align: bool, entries: seq<GlyfTable.Entry>)
    ensures GlyfTable.Offset(align, entries, 0) == 0 && FitsUpTo(align, entries, 0)
  {
    assert GlyfTable.Sizes(align, entries)[..0] == [];
  }

  /** One turn of the first loop: the next boundary, which a null entry leaves where it was. */
  lemma {:induction false} FitsStep(align: bool, entries: seq<GlyfTable.Entry>, i: nat)
    requires i < |entries| && FitsUpTo(align, entries, i)
    ensures GlyfTable.Offset(align, entries, i + 1) == GlyfTable.Offset(align, entries, i) + GlyfTable.SlotSize(align, entries[i])
    ensures FitsUpTo(align, entries, i + 1) <==> ShortPosition(GlyfTable.Offset(align, entries, i + 1))
    ensures entries[i].None? ==> FitsUpTo(align, entries, i + 1)
  {
    GlyfTable.OffsetStep(align, entries, i);
    GlyfTable.SlotSizeBounds(align, entries[i]);
  }

  /** One boundary that is not a short position forces the long format. */
  lemma {:induction false} LongOnceUnfit(align: bool, entries: seq<GlyfTable.Entry>, n: nat)
    requires n <= |entries| && !FitsUpTo(align, entries, n)
    ensures ModeFor(align, entries) == Long
  {
    var k :| 0 <= k <= n && !ShortPosition(GlyfTable.Offset(align, entries, k));
    assert !ShortPosition(GlyfTable.Offset(align, entries, k));
  }

  /** Each stored offset is that of its boundary. */
  lemma {:induction false} StoredOffsetsAt(mode: FormatMode, align: bool, entries: seq<GlyfTable.Entry>, n: nat)
    requires n <= |entries|
    ensures forall k :: 0 <= k <= n ==> StoredOffsets(mode, align, entries, n)[k] == Stored(mode, GlyfTable.Offset(align, entries, k))
  {
    if n == 0 {
      FitsStart(align, entries);
    } else {
      StoredOffsetsAt(mode, align, entries, n - 1);
    }
  }

  /**
   * The offsets `Validate` stores locate the glyf entries: always in the
   * short format, and in the long format while the table stays below 4 GiB
   * (past that the 32-bit cast wraps).
   */
  lemma {:induction false} ValidatedLocates(glyf: GlyfTable.GlyfTable)
    requires ModeFor(glyf.align, glyf.entries) == Short || GlyfTable.TotalSize(glyf.align, glyf.entries) < 0x1_0000_0000
    ensures GlyfTable.Locates(glyf.align, glyf.entries, Validated(glyf).formatMode == Long, Validated(glyf).offsets)
  {
    var align, entries := glyf.align, glyf.entries;
    var mode := ModeFor(align, entries);
    var offsets := Validated(glyf).offsets;
    StoredOffsetsAt(mode, align, entries, |entries|);
    forall i | 0 <= i < |offsets|
      ensures GlyfTable.Position(mode == Long, offsets[i]) as int == GlyfTable.Offset(align, entries, i)
    {
      var at := GlyfTable.Offset(align, entries, i);
      assert offsets[i] == Stored(mode, at);
      if mode == Long {
        GlyfTable.OffsetMonotone(align, entries, i, |entries|);
      } else {
        assert ShortPosition(at);
      }
      PositionOfStored(mode, at);
    }
  }

  /** A position stored and read back is the position itself, when the format can hold it. */
  lemma {:induction false} PositionOfStored(mode: FormatMode, at: nat)
    requires mode == Long ==> at < 0x1_0000_0000
    requires mode == Short ==> ShortPosition(at)
    ensures GlyfTable.Position(mode == Long, Stored(mode, at)) as int == at
  {
  }

  /** In the short format every stored offset is below 0x8000, so writing it in 16 bits loses nothing. */
  lemma {:induction false} ShortOffsetsFit(glyf: GlyfTable.GlyfTable)
    requires ModeFor(glyf.align, glyf.entries) == Short
    ensures forall i :: 0 <= i < |Validated(glyf).offsets| ==> Validated(glyf).offsets[i] < 0x8000
  {
    var offsets := Validated(glyf).offsets;
    StoredOffsetsAt(Short, glyf.align, glyf.entries, |glyf.entries|);
    forall i | 0 <= i < |offsets|
      ensures offsets[i] < 0x8000
    {
      assert ShortPosition(GlyfTable.Offset(glyf.align, glyf.entries, i));
    }
  }

  /** Every boundary of an aligned table is a multiple of four. */
  lemma {:induction false} AlignedBoundaries(entries: seq<GlyfTable.Entry>, n: nat)
    requires n <= |entries|
    ensures GlyfTable.Offset(true, entries, n) % 4 == 0
  {
    if n == 0 {
      FitsStart(true, entries);
    } else {
      AlignedBoundaries(entries, n - 1);
      GlyfTable.OffsetStep(true, entries, n - 1);
      GlyfTable.SlotSizeBounds(true, entries[n - 1]);
    }
  }

  /** An aligned table never has an odd boundary: it gets the short format exactly when it is at most 0xFFFF bytes. */
  lemma {:induction false} AlignedShortWhenSmall(entries: seq<GlyfTable.Entry>)
    ensures ModeFor(true, entries) == Short <==> GlyfTable.TotalSize(true, entries) <= 0xFFFF
  {
    GlyfTable.OffsetMonotone(true, entries, |entries|, |entries|);
    if GlyfTable.TotalSize(true, entries) <= 0xFFFF {
      forall i | 0 <= i <= |entries|
        ensures ShortPosition(GlyfTable.Offset(true, entries, i))
      {
        AlignedShortAt(entries, i);
      }
    } else {
      assert !ShortPosition(GlyfTable.Offset(true, entries, |entries|));
      LongOnceUnfit(true, entries, |entries|);
    }
  }

  /** In an aligned table of at most 0xFFFF bytes each boundary is a short position. */
  lemma {:induction false} AlignedShortAt(entries: seq<GlyfTable.Entry>, i: nat)
    requires i <= |entries| && GlyfTable.TotalSize(true, entries) <= 0xFFFF
    ensures ShortPosition(GlyfTable.Offset(true, entries, i))
  {
    AlignedBoundaries(entries, i);
    GlyfTable.OffsetMonotone(true, entries, i, |entries|);
    EvenOfFour(GlyfTable.Offset(true, entries, i));
  }

  lemma {:induction false} EvenOfFour(x: nat)
    requires x % 4 == 0
    ensures x % 2 == 0
  {
    var q := x / 4;
    assert x == q + q + q + q;
    assert x == 2 * (q + q);
  }

  // ------------------------------------------------------------ serializing

  /** 4 bytes per offset in the long format, 2 in the short one. */
  function GetSize(t: LocaTable): nat
  {
    if t.formatMode == Long then |t.offsets| * 4 else |t.offsets| * 2
  }

  function Layout(mode: FormatMode): Records.Layout
  {
    if mode == Long then [U32] else [U16]
  }

  /** An offset as it is written: whole in the long format, cut to 16 bits in the short one. */
  function Row(mode: FormatMode, offset: u32): (row: seq<int>)
    ensures Conforms(Layout(mode), row)
  {
    if mode == Long then [offset] else [offset % 0x1_0000]
  }

  function Rows(t: LocaTable): (rows: seq<seq<int>>)
    ensures |rows| == |t.offsets| && AllConform(Layout(t.formatMode), rows)
    ensures forall i :: 0 <= i < |rows| ==> rows[i] == Row(t.formatMode, t.offsets[i])
  {
    seq(|t.offsets|, i requires 0 <= i < |t.offsets| => Row(t.formatMode, t.offsets[i]))
  }

  /** The table's bytes: each offset as a big-endian word of the format's width. */
  function Image(t: LocaTable): (s: seq<byte>)
    ensures |s| == GetSize(t)
  {
    var rows := Rows(t);
    assert Size(Layout(t.formatMode)) == if t.formatMode == Long then 4 else 2;
    TimesIsProduct(|rows|, Size(Layout(t.formatMode)));
    EncodeArray(Layout(t.formatMode), rows)
  }

  /** An offset's word: its 4 bytes, or the 2 bytes of its low half. */
  lemma {:induction false} RowImage(mode: FormatMode, offset: u32)
    ensures Encode(Layout(mode), Row(mode, offset)) == if mode == Long then BE32(offset) else BE16(offset % 0x1_0000)
  {
    var layout, row := Layout(mode), Row(mode, offset);
    assert layout[1..] == [] && row[1..] == [];
    AppendEmpty(EncodeField(layout[0], row[0]));
  }

  /**
   * `Serialize` into a destination of destLength bytes: ArgumentException
   * unless it is exactly the table's size; then the loop writing each offset
   * as a word of the format's width.
   */
  method Serialize(t: LocaTable, destLength: nat) returns (res: Result<seq<byte>>)
    ensures destLength != GetSize(t) ==> res == Err(Argument)
    ensures destLength == GetSize(t) ==> res == Ok(Image(t))
  {
    if destLength != GetSize(t) {
      return Err(Argument);
    }
    var image: seq<byte> := [];
    WrittenStart(t);
    for i := 0 to |t.offsets|
      invariant WrittenUpTo(t, i, image)
    {
      var word: seq<byte>;
      if t.formatMode == Long {
        word := BE32(t.offsets[i]);
      } else {
        word := BE16(t.offsets[i] % 0x1_0000);
      }
      WrittenStep(t, i, image, word);
      image := image + word;
    }
    WrittenDone(t, image);
    res := Ok(image);
  }

  /** The writing loop's state after i offsets: their words, in order. */
  predicate WrittenUpTo(t: LocaTable, i: nat, image: seq<byte>)
  {
    i <= |t.offsets| && AllConform(Layout(t.formatMode), Rows(t)[..i]) &&
    image == EncodeArray(Layout(t.formatMode), Rows(t)[..i])
  }

  lemma {:induction false} WrittenStart(t: LocaTable)
    ensures WrittenUpTo(t, 0, [])
  {
    assert Rows(t)[..0] == [];
  }

  /** One turn of the writing loop: offset i's word joins the image. */
  lemma {:induction false} WrittenStep(t: LocaTable, i: nat, image: seq<byte>, word: seq<byte>)
    requires i < |t.offsets| && WrittenUpTo(t, i, image)
    requires word == if t.formatMode == Long then BE32(t.offsets[i]) else BE16(t.offsets[i] % 0x1_0000)
    ensures WrittenUpTo(t, i + 1, image + word)
  {
    EncodeArraySnoc(Layout(t.formatMode), Rows(t), i);
    RowImage(t.formatMode, t.offsets[i]);
  }

  lemma {:induction false} WrittenDone(t: LocaTable, image: seq<byte>)
    requires WrittenUpTo(t, |t.offsets|, image)
    ensures image == Image(t)
  {
    assert Rows(t)[..|t.offsets|] == Rows(t);
  }

  // ------------------------------------------------------------ parsing

  /** The offsets read back from decoded rows. */
  function OffsetsOf(mode: FormatMode, rows: seq<seq<int>>): (offsets: seq<u32>)
    requires AllConform(Layout(mode), rows)
    ensures |offsets| == |rows|
  {
    seq(|rows|, i requires 0 <= i < |rows| => rows[i][0] as u32)
  }

  /**
   * `Deserialize` with maxp's glyph count and head's indexToLocFormat:
   * numGlyphs + 1 offsets, long when indexToLocFormat is positive;
   * ArgumentException unless exactly that many bytes remain; then every
   * whole word that remains.  The old offsets are discarded.
   */
  function Deserialize(r: BufferReaders.Reader, numGlyphs: u16, indexToLocFormat: i16): (res: Result<(LocaTable, BufferReaders.Reader)>)
    ensures var width := if indexToLocFormat > 0 then 4 else 2;
      res.Ok? <==> BufferReaders.Remains(r) == width * (numGlyphs + 1)
    ensures res.Err? ==> res.error == Argument
    ensures res.Ok? ==> (|res.value.0.offsets| == numGlyphs + 1 &&
      (res.value.0.formatMode == Long <==> indexToLocFormat > 0))
  {
    var n := numGlyphs + 1;
    var mode := if indexToLocFormat > 0 then Long else Short;
    var width := if mode == Long then 4 else 2;
    if BufferReaders.Remains(r) != width * n then Err(Argument)
    else
      // with that many bytes left the cursor is inside the window, so the read succeeds
      var words := BufferReaders.ReadUnalignedAsPossible(r, width).value;
      assert |words.0| == n * width;
      TimesIsProduct(n, width);
      Ok((LocaTable(OffsetsOf(mode, DecodeArray(Layout(mode), words.0, n)), mode), words.1))
  }

  /** What parsing gives back for a written table: the offsets as written, a short one cut to 16 bits. */
  function Reparsed(t: LocaTable): (p: LocaTable)
    ensures |p.offsets| == |t.offsets| && p.formatMode == t.formatMode
  {
    LocaTable(seq(|t.offsets|, i requires 0 <= i < |t.offsets| =>
      if t.formatMode == Long then t.offsets[i] else t.offsets[i] % 0x1_0000), t.formatMode)
  }

  lemma {:induction false} RowsRoundTrip(t: LocaTable)
    ensures OffsetsOf(t.formatMode, Rows(t)) == Reparsed(t).offsets
  {
  }

  /**
   * Parsing the written table with the matching glyph count and format flag
   * gives its offsets back (a short one modulo 2^16) and consumes every byte.
   */
  lemma {:induction false} RoundTrip(t: LocaTable, indexToLocFormat: i16)
    requires 0 < |t.offsets| <= 0x1_0000
    requires indexToLocFormat > 0 <==> t.formatMode == Long
    ensures Deserialize(BufferReaders.Fresh(Image(t)), |t.offsets| - 1, indexToLocFormat) ==
      Ok((Reparsed(t), BufferReaders.Reader(Image(t), |Image(t)|)))
  {
    var image := Image(t);
    var layout := Layout(t.formatMode);
    var n := |t.offsets|;
    var width := if t.formatMode == Long then 4 else 2;
    var r := BufferReaders.Fresh(image);
    assert Size(layout) == width;
    TimesIsProduct(n, width);
    assert image[0..n * width] == image;
    assert BufferReaders.ReadUnalignedAsPossible(r, width) == Ok((image, BufferReaders.Reader(image, |image|)));
    ArrayRoundTrip(layout, Rows(t), []);
    AppendEmpty(image);
    RowsRoundTrip(t);
  }

  /** An offset `Validate` stores in the short format is written and read back unchanged. */
  lemma {:induction false} ValidatedReparsed(glyf: GlyfTable.GlyfTable)
    ensures Reparsed(Validated(glyf)) == Validated(glyf)
  {
    if ModeFor(glyf.align, glyf.entries) == Short {
      ShortOffsetsFit(glyf);
    }
  }

  // ------------------------------------------------------------ glyf and loca together

  /**
   * The glyph outlines survive a trip through the font: `Validate` picks the
   * format and the offsets, head records the format in indexToLocFormat,
   * loca is written and parsed back with the glyph count, and glyf is parsed
   * with the offsets and format loca gives back.  Every entry comes back as
   * the glyf round trip promises.  The glyf reader does not consult the
   * `Align` flag of the table it fills (the offsets come from loca), so
   * reading into an empty table with the written table's flag gives back
   * the written table, and reading into a fresh one (`Align` is true)
   * gives the same entries.
   */
  lemma {:induction false} GlyphsRoundTrip(glyf: GlyfTable.GlyfTable, head: Head.HeadData)
    requires forall i :: 0 <= i < |glyf.entries| ==> GlyfTable.Parsable(glyf.entries[i])
    requires GlyfTable.TotalSize(glyf.align, glyf.entries) < 0x8000_0000
    requires |glyf.entries| < 0x1_0000
    ensures var loca := Validated(glyf);
      var format := Head.Validate(head, loca.formatMode == Long).indexToLocFormat;
      var parsed := Deserialize(BufferReaders.Fresh(Image(loca)), |glyf.entries|, format);
      parsed.Ok? && parsed.value.0 == loca &&
      GlyfTable.Deserialize(GlyfTable.GlyfTable(glyf.align, []), BufferReaders.Fresh(GlyfTable.Image(glyf.align, glyf.entries)),
        parsed.value.0.formatMode == Long, parsed.value.0.offsets) ==
      Ok(glyf.(entries := GlyfTable.ReparsedAll(glyf.entries)))
    ensures var loca := Validated(glyf);
      GlyfTable.Deserialize(GlyfTable.GlyfTable(true, []), BufferReaders.Fresh(GlyfTable.Image(glyf.align, glyf.entries)),
        loca.formatMode == Long, loca.offsets) ==
      Ok(GlyfTable.GlyfTable(true, GlyfTable.ReparsedAll(glyf.entries)))
  {
    var loca := Validated(glyf);
    var format := Head.Validate(head, loca.formatMode == Long).indexToLocFormat;
    ValidatedLocates(glyf);
    ValidatedReparsed(glyf);
    RoundTrip(loca, format);
    GlyfTable.RoundTrip(glyf, loca.formatMode == Long, loca.offsets);
  }
}
