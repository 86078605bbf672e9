# PixelType.Core in Dafny

A model of the core of PixelType.Core, a C# library that builds TrueType
font files from abstract glyphs (outlines and pixel bitmaps on sheets) and
reads them back, with proofs about that model.

What is modelled, leaf first:

- **Endian wrappers** (`U16`, `U32`, `I16`, `I32`, `I64`): the byte-swapping
  `Reverse` on a little- and a big-endian host, with its sign handling for
  the signed types, as bit-vector functions linked to the big-endian byte
  codec (`EndianTypes`, `Bytes`).
- **`BufferReader`**: a cursor over a byte window. The pure reader state and
  its reads are functions (`BufferReaders`); the class whose methods
  advance the cursor is `BufferReaderObjects.BufferReader`. The
  `ReadBytes(Span)` quirk, which copies from the window start, is kept.
- **Fixed records**: every record the library writes through its struct
  layout becomes an explicit list of big-endian fields (`Records`,
  `FixedTable`). `Unknown` is the raw-bytes table.
- **Tables**: `head`, `hhea`, `maxp`, `post`, `hmtx`, `gasp`, `name`, `loca`,
  `glyf` (the simple-glyph point encoding with its flag repeats),
  `cmap` (formats 0, 4, 6 and 12, with subtables shared between records),
  `EBDT` (bit- and byte-aligned pixel packing, metrics, formats 1, 2, 5, 6
  and 7), `EBLC` (index subtables 1, 2 and 3, and the checks against
  `EBDT`) and `OS/2` (versions 0 to 5, the copied metrics, first and last
  character, the Unicode-range bits). Each has its size, its byte image,
  its reader and the round trip between them, and its `Validate`.
- **The font file** (`TrueTypeFont`): tag packing, the two dependency
  resolutions (parse and validate) as a depth-first search over marker
  arrays with cycle and missing-dependency errors, the table directory with
  4-byte alignment, the per-table and whole-file checksums, and the
  `head.checkSumAdjustment` word (0xB1B0AFBA minus the file sum)
  (`FontTags`, `Dependencies`, `FontLayout`, `Checksums`, `FontImage`,
  `FontFile`).
- **The builder** (`TrueTypeFontBuilder`, `EmptyGlyph`): glyph
  registration, glyph sizes by width mode, outlines to `glyf` entries,
  the `cmap` with its greedy segment merge and its format-0 array, the
  bitmap trim and the `EBLC`/`EBDT` sections (`Builder`, `BuilderGlyphs`,
  `BuilderOutlines`, `BuilderCmap`, `BuilderBitmaps`).

Tables are values; where the library shares one object between two owners
(a `cmap` subtable under several records, an `EBDT` section under an
`EBLC` index subtable) the model holds an index into a pool. Operations
that throw return a `Result` whose error names the exception. Integer
casts in the library (`(ushort)`, `(byte)`, `(sbyte)`) are written out as
reductions modulo 2^16 or 2^8. C#'s `/` truncates toward zero, and where it
meets a negative operand the model divides that way.

Two sizes are modelled exactly as the code computes them. Both `EBDT`
size helpers, `GetSizeOfBitAlignedBitmap` (`((w * h + 7) >> 3) << 3`)
and `GetSizeOfByteAlignedByLineBitmap` (`(((w + 7) >> 3) << 3) * h`), in
`src/TrueType/Tables/TtfTableEbdt.cs:248-256`, return a count of bits,
and the table uses it as a count of bytes. `loca`'s `Validate`
(`src/TrueType/Tables/TtfTableLoca.cs:38-52`) picks the short format
only when every running offset is even and none exceeds 65535. The
readers that the code gets wrong are modelled as written. The intended
readers are defined beside them and proved correct (see "## Findings").

## Model

| member | source | states |
|---|---|---|
| EndianTypes.ReverseU16SwapsBytes | src/Utils/EndianTypes/U16.cs:22-29 | on a little-endian host `Reverse` swaps the two bytes of the pattern |
| EndianTypes.ReverseU16Involution | src/Utils/EndianTypes/U16.cs:22-29 | `Reverse` undoes itself, on either host |
| EndianTypes.U16RoundTrip | src/Utils/EndianTypes/U16.cs:10-20 | `ushort` to `U16` and back gives the value again |
| EndianTypes.U16MemoryIsBigEndian | src/Utils/EndianTypes/U16.cs:16-20 | on a little-endian host the wrapper's memory holds the high byte first, then the low byte |
| EndianTypes.ReverseU32SwapsBytes | src/Utils/EndianTypes/U32.cs:22-31 | on a little-endian host `Reverse` reverses the four bytes of the pattern |
| EndianTypes.ReverseU32Involution | src/Utils/EndianTypes/U32.cs:22-31 | `Reverse` undoes itself, on either host |
| EndianTypes.U32RoundTrip | src/Utils/EndianTypes/U32.cs:10-20 | `uint` to `U32` and back gives the value again |
| EndianTypes.ReverseI16IsByteSwap | src/Utils/EndianTypes/I16.cs:22-36 | the masked, sign-patched signed `Reverse` equals the plain two-byte swap of the bit pattern |
| EndianTypes.ReverseI16Sign | src/Utils/EndianTypes/I16.cs:27-32 | the result is negative exactly when bit 7 of the input is set |
| EndianTypes.ReverseI16Involution | src/Utils/EndianTypes/I16.cs:22-36 | the signed `Reverse` undoes itself |
| EndianTypes.I16RoundTrip | src/Utils/EndianTypes/I16.cs:10-20 | `short` to `I16` and back gives the value again |
| EndianTypes.ReverseI32IsByteSwap | src/Utils/EndianTypes/I32.cs:22-38 | the signed `Reverse` equals the four-byte swap of the bit pattern |
| EndianTypes.ReverseI32Sign | src/Utils/EndianTypes/I32.cs:26-34 | the result is negative exactly when bit 7 of the input is set |
| EndianTypes.ReverseI32Involution | src/Utils/EndianTypes/I32.cs:22-38 | the signed `Reverse` undoes itself |
| EndianTypes.I32RoundTrip | src/Utils/EndianTypes/I32.cs:10-20 | `int` to `I32` and back gives the value again |
| EndianTypes.ReverseI64IsByteSwap | src/Utils/EndianTypes/I64.cs:22-42 | the signed `Reverse` equals the eight-byte swap of the bit pattern (`Swap64`, proved to reverse the bytes by `Swap64SwapsBytes`) |
| EndianTypes.ReverseI64Sign | src/Utils/EndianTypes/I64.cs:26-38 | the result is negative exactly when bit 7 of the input is set, and bit 7 of the result is the input's sign |
| EndianTypes.ReverseI64Involution | src/Utils/EndianTypes/I64.cs:22-42 | the signed `Reverse` undoes itself |
| EndianTypes.I64RoundTrip | src/Utils/EndianTypes/I64.cs:10-20 | `long` to `I64` and back gives the value again |
| EndianTypes.Swap64SwapsBytes | src/Utils/EndianTypes/I64.cs:22-42 | the reference swap reverses the eight bytes of the pattern |
| BufferReaders.ReadUnaligned | src/Utils/BufferReader.cs:20-29 | a read returns exactly `size` bytes and advances the cursor by `size` |
| BufferReaders.ReadUnalignedFails | src/Utils/BufferReader.cs:20-29 | `ReadUnaligned` throws `IndexOutOfRangeException` exactly when fewer than `size` bytes remain |
| BufferReaders.TryReadAgrees | src/Utils/BufferReader.cs:31-46 | `TryReadUnaligned` succeeds exactly when `ReadUnaligned` would, with the same bytes and cursor; on failure it gives a zero result and leaves the cursor |
| BufferReaders.ReadsConsume | src/Utils/BufferReader.cs:20-86 | every cursor-relative read returns the bytes between the old and the new cursor, and `Remains` drops by that many |
| BufferReaders.ReadBytesFromStartIgnoresCursor | src/Utils/BufferReader.cs:48-53 | `ReadBytes(Span)` copies the window's first bytes whatever the cursor, yet advances the cursor; it agrees with `ReadBytes(int)` only at cursor 0 |
| BufferReaders.ReadBytesFromStartDiffers | src/Utils/BufferReader.cs:48-69 | at cursor 1 over [1, 2, 3], `ReadBytes(Span)` of 2 gives [1, 2] while `ReadBytes(2)` gives [2, 3] |
| BufferReaders.ReadBytes | src/Utils/BufferReader.cs:63-69 | a successful read returns `length` bytes and advances by `length` |
| BufferReaders.ReadUnalignedArray | src/Utils/BufferReader.cs:71-78 | a successful read returns `numElements * size` bytes |
| BufferReaders.ReadAsPossibleWholeValues | src/Utils/BufferReader.cs:80-86 | `ReadUnalignedAsPossible` consumes the whole values that remain, ⌊remains/size⌋·size bytes, leaving fewer than `size` |
| BufferReaders.SliceIgnoresCursor | src/Utils/BufferReader.cs:88-98 | both `SliceFromStart` overloads are anchored at the window start, and give a fresh reader over that slice |
| BufferReaders.ReadBuffer | src/Utils/BufferReader.cs:100-106 | `ReadBuffer` gives a fresh reader over the next `length` bytes and consumes them |
| BufferReaders.SkipUnchecked | src/Utils/BufferReader.cs:108-113 | `Skip` refuses exactly a negative length and otherwise advances with no bounds check; past the end every later read fails |
| BufferReaders.ReadBytesOf | src/Utils/BufferReader.cs:63-69 | reading as many bytes as a window holds gives the window |
| BufferReaders.ReadRecordOf | src/Utils/BufferReader.cs:20-29 | reading a struct over its big-endian image gives the field values back and moves past the image |
| BufferReaders.ReadRecords | src/Utils/BufferReader.cs:20-29 | reading n structs one after another over an array image gives the rows back and ends after the array |
| BufferReaders.ReadManyAt | src/Utils/BufferReader.cs:20-29 | entries that each read back at their positions make a loop that reads them all back |
| BufferReaderObjects.BufferReader.constructor | src/Utils/BufferReader.cs:14-18 | the new reader's state is the whole buffer with the cursor at 0 |
| BufferReaderObjects.BufferReader.Remains | src/Utils/BufferReader.cs:12 | `Remains` is the buffer length minus the cursor |
| BufferReaderObjects.BufferReader.ReadUnaligned | src/Utils/BufferReader.cs:20-29 | the method returns what `BufferReaders.ReadUnaligned` gives and moves the cursor as it does; on failure the state is unchanged |
| BufferReaderObjects.BufferReader.TryReadUnaligned | src/Utils/BufferReader.cs:31-46 | flag, result and new state are those of `BufferReaders.TryReadUnaligned` |
| BufferReaderObjects.BufferReader.ReadBytesInto | src/Utils/BufferReader.cs:48-53 | fills the target array from the window start and advances the cursor, as `ReadBytesFromStart` says |
| BufferReaderObjects.BufferReader.ReadBytesAsPossible | src/Utils/BufferReader.cs:55-61 | returns the rest of the window and moves the cursor to its end |
| BufferReaderObjects.BufferReader.ReadBytes | src/Utils/BufferReader.cs:63-69 | returns and consumes the next `length` bytes, as `BufferReaders.ReadBytes` says |
| BufferReaderObjects.BufferReader.ReadUnalignedArray | src/Utils/BufferReader.cs:71-78 | returns and consumes the bytes of `numElements` values |
| BufferReaderObjects.BufferReader.ReadUnalignedAsPossible | src/Utils/BufferReader.cs:80-86 | returns and consumes the whole values that remain |
| BufferReaderObjects.BufferReader.SliceFromStart | src/Utils/BufferReader.cs:88-92 | a fresh reader over the window from the offset, cursor untouched |
| BufferReaderObjects.BufferReader.SliceFromStartLength | src/Utils/BufferReader.cs:94-98 | a fresh reader over `length` bytes from the offset |
| BufferReaderObjects.BufferReader.ReadBuffer | src/Utils/BufferReader.cs:100-106 | a fresh reader over the next `length` bytes, which are consumed |
| BufferReaderObjects.BufferReader.Skip | src/Utils/BufferReader.cs:108-113 | throws on a negative length, otherwise advances the cursor by `length` |
| FixedTable.Serialize | src/TrueType/TrueTypeTableFixed.cs:15-19 | the struct's image is `Size(layout)` bytes long and decodes back to the field values |
| FixedTable.Deserialize | src/TrueType/TrueTypeTableFixed.cs:21-25 | the read succeeds exactly when `Size(layout)` bytes remain (else `IndexOutOfRangeException`), decodes those bytes into conforming values and advances past them |
| FixedTable.RoundTrip | src/TrueType/TrueTypeTableFixed.cs:15-25 | `Deserialize` over the image `Serialize` writes gives the values back and stops right after it |
| Records.RoundTrip | src/Utils/SerializationUtility.cs:13-30 | a struct's big-endian image has `Size(layout)` bytes and decodes back to the field values, whatever follows it |
| Records.FieldRoundTrip | src/Utils/SerializationUtility.cs:13-30 | one field's big-endian bytes decode back to the field's value |
| Records.EncodeConcat | src/Utils/SerializationUtility.cs:25-30 | the image of two consecutive field groups is the image of the first followed by the image of the second |
| Records.ArrayRoundTrip | src/Utils/SerializationUtility.cs:13-30 | an array of structs decodes back row by row from its image |
| Unknown.Serialize | src/TrueType/TrueTypeTableUnknown.cs:16-26 | succeeds exactly when the destination length is `GetSize` (else `IndexOutOfRangeException`) and then writes the data bytes |
| Unknown.Deserialize | src/TrueType/TrueTypeTableUnknown.cs:28-32 | keeps the tag and sets data |
| Unknown.DeserializeFrom | src/TrueType/TrueTypeTableUnknown.cs:28-32 | the method on a `BufferReader` object gives what `Deserialize` gives and leaves the reader in its state |
| Unknown.RoundTrip | src/TrueType/TrueTypeTableUnknown.cs:21-32 | deserializing a fresh window gives its bytes as data and serializing that data gives the bytes again |
| Unknown.ReadsFromWindowStart | src/TrueType/TrueTypeTableUnknown.cs:28-32 | at a nonzero cursor the data is `Remains` bytes copied from the window start, not from the cursor |
| Head.FieldsConform | src/TrueType/Tables/TtfTableHead.cs:42-62 | the 54-byte `head` record's field list conforms to its layout and converts back to the same record |
| Head.SizeIs54 | src/TrueType/Tables/TtfTableHead.cs:42-62 | the packed `head` struct is 54 bytes |
| Head.Validate | src/TrueType/Tables/TtfTableHead.cs:14-26 | indexToLocFormat becomes 1 exactly when loca uses long offsets and 0 otherwise; every other field is kept |
| Head.Forced | src/TrueType/Tables/TtfTableHead.cs:28-39 | writing forces version 0x00010000, magicNumber 0x5F0F3CF5 and glyphDataFormat 0 and keeps every other field |
| Head.Serialize | src/TrueType/Tables/TtfTableHead.cs:28-39 | the image is 54 bytes |
| Head.RoundTrip | src/TrueType/Tables/TtfTableHead.cs:28-39 | reading back the written image, whatever follows it, gives the forced record and stops after 54 bytes |
| Head.AdjustmentAtOffset8 | src/TrueType/Tables/TtfTableHead.cs:42-62 | checkSumAdjustment occupies bytes 8..12 of the image, big-endian |
| Head.SetGetBit | src/TrueType/Tables/TtfTableHead.cs:185-195 | setting bit `digit` makes it read back as the value set and leaves every other bit as it was |
| Head.SetFlag | src/TrueType/Tables/TtfTableHead.cs:191-195 | only `flags` changes; the chosen flag reads back as set and every other flag keeps its value |
| Head.SetStyleFlag | src/TrueType/Tables/TtfTableHead.cs:197-206 | only `macStyle` changes; the chosen style bit reads back as set and every other one keeps its value |
| Head.GetDirectionHint | src/TrueType/Tables/TtfTableHead.cs:178-182 | the hint is defined exactly when fontDirectionHint lies in -2..2, and then it is that value |
| Head.SetDirectionHint | src/TrueType/Tables/TtfTableHead.cs:178-182 | only fontDirectionHint changes |
| Head.DirectionHintRoundTrip | src/TrueType/Tables/TtfTableHead.cs:178-182 | a hint that was set reads back as itself |
| Hhea.FieldsConform | src/TrueType/Tables/TtfTableHhea.cs:46-64 | the `hhea` record's field list conforms to its layout and converts back to the same record |
| Hhea.SizeIs36 | src/TrueType/Tables/TtfTableHhea.cs:46-64 | the packed `hhea` struct is 36 bytes |
| Hhea.MaxAdvanceIsMaximum | src/TrueType/Tables/TtfTableHhea.cs:20-23 | the running maximum bounds every advance width, is 0 for no metrics and is otherwise attained by some metric |
| Hhea.Validate | src/TrueType/Tables/TtfTableHhea.cs:13-28 | numOfLongHorMetrics becomes the metric count mod 2^16 and advanceWidthMax the maximum advance; nothing else changes |
| Hhea.Forced | src/TrueType/Tables/TtfTableHhea.cs:30-43 | writing forces version 0x00010000, the four reserved words and metricDataFormat to 0 and keeps every other field |
| Hhea.RoundTrip | src/TrueType/Tables/TtfTableHhea.cs:30-43 | reading back the written image, whatever follows it, gives the forced record and stops after 36 bytes |
| Maxp.FieldsConform | src/TrueType/Tables/TtfTableMaxp.cs:53-69 | the `maxp` record's field list conforms to its layout and converts back to the same record |
| Maxp.SizeIs32 | src/TrueType/Tables/TtfTableMaxp.cs:53-69 | the packed `maxp` struct is 32 bytes |
| Maxp.PointCounts | src/TrueType/Tables/TtfTableMaxp.cs:21-23 | one point count per glyf entry, in order |
| Maxp.ContourCounts | src/TrueType/Tables/TtfTableMaxp.cs:21-23 | one contour count per glyf entry, in order |
| Maxp.Max | src/TrueType/Tables/TtfTableMaxp.cs:19-26 | the running maximum bounds every count, is 0 for none and is otherwise attained |
| Maxp.MaxFits | src/TrueType/Tables/TtfTableMaxp.cs:19-26 | the maximum of 16-bit counts fits in 16 bits |
| Maxp.Validate | src/TrueType/Tables/TtfTableMaxp.cs:12-38 | the loop over the simple glyphs computes exactly the validated record |
| Maxp.ValidatedMaxPoints | src/TrueType/Tables/TtfTableMaxp.cs:19-26 | maxPoints bounds the point count of every simple glyph and is 0 or attained by one |
| Maxp.ValidatedMaxContours | src/TrueType/Tables/TtfTableMaxp.cs:19-26 | maxContours bounds the contour count of every simple glyph and is 0 or attained by one |
| Maxp.ValidatedCount | src/TrueType/Tables/TtfTableMaxp.cs:16-34 | numGlyphs becomes the number of glyf entries; only numGlyphs, the two maxima and the component fields (set to 0) change |
| Maxp.Forced | src/TrueType/Tables/TtfTableMaxp.cs:40-49 | writing forces version 0x00010000 and keeps every other field |
| Maxp.RoundTrip | src/TrueType/Tables/TtfTableMaxp.cs:40-49 | reading back the written image, whatever follows it, gives the forced record and stops after 32 bytes |
| Post.HeaderSize | src/TrueType/Tables/TtfTablePost.cs:54-64 | the packed `post` header is 32 bytes |
| Post.Fields | src/TrueType/Tables/TtfTablePost.cs:54-64 | the header's field list conforms to its layout |
| Post.Serialize | src/TrueType/Tables/TtfTablePost.cs:18-24 | writing succeeds exactly when the destination length equals header size plus body length (else `ArgumentException`); the image is the header followed by the body |
| Post.DeserializeChecks | src/TrueType/Tables/TtfTablePost.cs:26-50 | fewer than 32 bytes fail with IndexOutOfRange, an unknown format with NotSupported, a body present exactly when the format is not 2.0 or 2.5 with Argument; otherwise the header and the remaining bytes are read |
| Post.RoundTrip | src/TrueType/Tables/TtfTablePost.cs:18-50 | a well-formed table (known format, a body exactly for 2.0 and 2.5) reads back from its image, consuming all of it |
| Hmtx.MetricRows | src/TrueType/Tables/TtfTableHmtx.cs:67-70 | one conforming 4-byte row per long metric |
| Hmtx.BearingRows | src/TrueType/Tables/TtfTableHmtx.cs:67-70 | one conforming 2-byte row per left side bearing |
| Hmtx.Validate | src/TrueType/Tables/TtfTableHmtx.cs:18-24 | succeeds exactly when the metric and bearing counts add up to the glyph count, and otherwise fails with InvalidOperation |
| Hmtx.Serialize | src/TrueType/Tables/TtfTableHmtx.cs:26-41 | the image is `GetSize` bytes: 4 per metric and 2 per bearing |
| Hmtx.Deserialize | src/TrueType/Tables/TtfTableHmtx.cs:43-64 | a successful read holds exactly numOfLongHorMetrics long metrics |
| Hmtx.RowsRoundTrip | src/TrueType/Tables/TtfTableHmtx.cs:30-64 | the metrics and bearings convert to rows and back unchanged |
| Hmtx.RoundTrip | src/TrueType/Tables/TtfTableHmtx.cs:30-64 | reading the written image with hhea's metric count gives the table back and consumes the image |
| Gasp.RangesOfRows | src/TrueType/Tables/TtfTableGasp.cs:53-63 | the ranges convert to rows and back unchanged |
| Gasp.WrittenHeader | src/TrueType/Tables/TtfTableGasp.cs:24-28 | writing sets version 1 and numRanges to the range count mod 2^16 |
| Gasp.Image | src/TrueType/Tables/TtfTableGasp.cs:15-34 | the image is `GetSize` bytes: 4 for the header and 4 per range |
| Gasp.Serialize | src/TrueType/Tables/TtfTableGasp.cs:20-34 | a destination shorter than `GetSize` fails with IndexOutOfRange; otherwise the table with its written header and its image are returned |
| Gasp.Deserialize | src/TrueType/Tables/TtfTableGasp.cs:36-50 | a successful read holds exactly numRanges ranges |
| Gasp.RoundTrip | src/TrueType/Tables/TtfTableGasp.cs:20-50 | reading the written image gives the table with its written header back and consumes the image |
| Loca.StoredOffsets | src/TrueType/Tables/TtfTableLoca.cs:56-68 | one stored offset per glyph boundary, n + 1 in all |
| Loca.Validate | src/TrueType/Tables/TtfTableLoca.cs:32-69 | the method leaves exactly the validated table: the format its first loop picks and one stored offset per boundary |
| Loca.PickFormat | src/TrueType/Tables/TtfTableLoca.cs:35-52 | the first loop picks the short format exactly when every glyph boundary is even and at most 0xFFFF |
| Loca.StoreOffsets | src/TrueType/Tables/TtfTableLoca.cs:56-68 | the second loop stores, per boundary, the position cut to 32 bits (long) or its half cut to 16 bits (short) |
| Loca.FitsStep | src/TrueType/Tables/TtfTableLoca.cs:39-50 | a null entry moves no boundary; otherwise the next boundary is the previous one plus the entry's (aligned) size, and still fits exactly when it is a short position |
| Loca.LongOnceUnfit | src/TrueType/Tables/TtfTableLoca.cs:45-49 | once a boundary is odd or above 0xFFFF the long format is chosen |
| Loca.StoredOffsetsAt | src/TrueType/Tables/TtfTableLoca.cs:56-68 | offset k is the stored form of boundary k |
| Loca.ValidatedLocates | src/TrueType/Tables/TtfTableLoca.cs:32-69 | the validated offsets locate every glyf entry when read in the validated format |
| Loca.PositionOfStored | src/TrueType/Tables/TtfTableLoca.cs:67 | a stored offset, read back in its format (doubled when short), gives the byte position |
| Loca.ShortOffsetsFit | src/TrueType/Tables/TtfTableLoca.cs:67 | in the short format every stored offset is below 0x8000 |
| Loca.AlignedBoundaries | src/TrueType/Tables/TtfTableLoca.cs:43 | with alignment every boundary is a multiple of 4 |
| Loca.AlignedShortWhenSmall | src/TrueType/Tables/TtfTableLoca.cs:39-52 | with alignment the short format is chosen exactly when the glyf total is at most 0xFFFF |
| Loca.Image | src/TrueType/Tables/TtfTableLoca.cs:71-78 | the image is `GetSize` bytes: 4 per offset (long) or 2 (short) |
| Loca.RowImage | src/TrueType/Tables/TtfTableLoca.cs:84-93 | an offset is written big-endian in 32 bits (long) or cut to 16 bits (short) |
| Loca.Serialize | src/TrueType/Tables/TtfTableLoca.cs:80-98 | a destination of any length other than `GetSize` fails with `ArgumentException`; otherwise the written bytes are the table's image |
| Loca.Deserialize | src/TrueType/Tables/TtfTableLoca.cs:100-133 | the read succeeds exactly when (numGlyphs + 1) entries of the flagged width remain (else `ArgumentException`), and then gives numGlyphs + 1 offsets in the format indexToLocFormat names |
| Loca.RoundTrip | src/TrueType/Tables/TtfTableLoca.cs:80-133 | the written table, read back with its glyph count and a matching format flag, gives the offsets back (short ones mod 2^16) and consumes the image |
| Loca.ValidatedReparsed | src/TrueType/Tables/TtfTableLoca.cs:32-133 | the offsets `Validate` stores survive writing and reading unchanged |
| Loca.GlyphsRoundTrip | src/TrueType/Tables/TtfTableLoca.cs:32-133 | validating loca, recording its format in head, writing and re-reading loca and then reading glyf with the offsets read gives every glyph entry back, into an empty table with the written table's `Align` flag and into a fresh one whose `Align` is true |
| Name.NonEmptyKeepsExactly | src/TrueType/Tables/TtfTableName.cs:18 | the filter keeps exactly the records whose name bytes are not empty |
| Name.NonEmptyConcat | src/TrueType/Tables/TtfTableName.cs:18 | the filter keeps the records' order |
| Name.Validate | src/TrueType/Tables/TtfTableName.cs:16-19 | validation keeps the header and removes exactly the records with empty names, in order |
| Name.Strings | src/TrueType/Tables/TtfTableName.cs:28-29 | the string area is as long as the sum of the name lengths |
| Name.StringsConcat | src/TrueType/Tables/TtfTableName.cs:53-74 | the string area of two record lists is the two areas one after the other |
| Name.WrittenHeader | src/TrueType/Tables/TtfTableName.cs:36-45 | writing sets format 0, count to the record count mod 2^16 and stringOffset to 6 + 12 × count mod 2^16 |
| Name.RowAt | src/TrueType/Tables/TtfTableName.cs:63-71 | a record row conforms to its layout and, when it fits in 16 bits, holds the name's length and its offset in the string area |
| Name.RecordArea | src/TrueType/Tables/TtfTableName.cs:50 | the record area is 12 bytes per record |
| Name.RecordAreaConcat | src/TrueType/Tables/TtfTableName.cs:53-74 | the records of a split list are written one after the other, the second part's offsets continuing after the first part's strings |
| Name.Image | src/TrueType/Tables/TtfTableName.cs:21-32 | the image is `GetSize` bytes |
| Name.PlacedFits | src/TrueType/Tables/TtfTableName.cs:53-74 | record i and its name bytes both fall inside a destination of `GetSize` bytes |
| Name.Serialize | src/TrueType/Tables/TtfTableName.cs:34-75 | the header written is the written header and the destination holds header, records and strings as the loop places them |
| Name.WriteRecord | src/TrueType/Tables/TtfTableName.cs:54-74 | one turn places record k's name bytes at the string cursor and its 12-byte row after the earlier rows |
| Name.SerializeImage | src/TrueType/Tables/TtfTableName.cs:34-75 | when count and offsets fit in 16 bits, the bytes the loop places are exactly the table's image |
| Name.RecordFrom | src/TrueType/Tables/TtfTableName.cs:137-145 | a record row converts exactly when offset + length lies inside the string area |
| Name.ReadEntry | src/TrueType/Tables/TtfTableName.cs:89 | reading a record advances the reader by 12 bytes |
| Name.DeserializeParts | src/TrueType/Tables/TtfTableName.cs:77-92 | an image made of the header, the record area and the strings reads back to the header and the records |
| Name.RoundTrip | src/TrueType/Tables/TtfTableName.cs:34-92 | the written table, when it fits in 16 bits, reads back to its written header and the same records |
| Glyf.SetRawCoord | src/TrueType/Tables/TtfTableGlyf.cs:365-382 | setting a raw value fails with ArgumentOutOfRange exactly for a short vector outside 0..255; otherwise the element keeps its vector bits, holds the raw value and a coordinate consistent with it |
| Glyf.SetCoord | src/TrueType/Tables/TtfTableGlyf.cs:384-410 | setting a coordinate keeps it; the value goes on the array exactly when it is nonzero, as a short vector exactly when it lies in -255..255, and a value off the array stores raw 0 |
| Glyf.NewElement | src/TrueType/Tables/TtfTableGlyf.cs:412-420 | a new element keeps the two bits it is given and has coordinate 0 |
| Glyf.SetCoordRoundTrip | src/TrueType/Tables/TtfTableGlyf.cs:365-420 | the element a coordinate produces is rebuilt exactly from its bits and its raw value, as reading does |
| Glyf.FlagBitsApart | src/TrueType/Tables/TtfTableGlyf.cs:443-450 | each of the five flag bits reads back as the boolean it was built from, and the repeat bit is clear |
| Glyf.FlagRoundTrip | src/TrueType/Tables/TtfTableGlyf.cs:430-450 | the point built from a point's preferred flag is that point with blank coordinates, and the flag never asks for a repeat |
| Glyf.FlagBits | src/TrueType/Tables/TtfTableGlyf.cs:430-450 | going from a flag byte to a point and back keeps exactly bits 0, 1, 2, 4 and 5 |
| Glyf.CoordImage | src/TrueType/Tables/TtfTableGlyf.cs:200-236 | a coordinate takes 0, 1 or 2 bytes, as `GetGlyphDataSize` counts them |
| Glyf.CoordsImageSnoc | src/TrueType/Tables/TtfTableGlyf.cs:200-217 | the coordinate image grows by one element's bytes per point, in order |
| Glyf.FlagsImage | src/TrueType/Tables/TtfTableGlyf.cs:188-195 | one flag byte per point, with no repeats |
| Glyf.DataImage | src/TrueType/Tables/TtfTableGlyf.cs:143-160 | the glyph data image is `GetGlyphDataSize` bytes |
| Glyf.EntryImage | src/TrueType/Tables/TtfTableGlyf.cs:97-100 | the entry image is 10 header bytes plus the data size |
| Glyf.GetGlyphDataSize | src/TrueType/Tables/TtfTableGlyf.cs:143-160 | the loop's sum is the data size: end points, instruction length and bytes, flags, and the coordinates on the array |
| Glyf.SerializeCoords | src/TrueType/Tables/TtfTableGlyf.cs:197-236 | the loop writes exactly the coordinate image: nothing for a value off the array, one byte for a short vector, two big-endian otherwise |
| Glyf.SerializeGlyphData | src/TrueType/Tables/TtfTableGlyf.cs:162-237 | a wrong destination length fails with `ArgumentException`, end points that do not count the points fail with `InvalidOperationException`, and otherwise the header gets numberOfContours and the bytes are the data image |
| Glyf.SerializeEndPts | src/TrueType/Tables/TtfTableGlyf.cs:176-179 | the loop writes the end points as big-endian 16-bit values |
| Glyf.SerializeFlags | src/TrueType/Tables/TtfTableGlyf.cs:188-195 | the loop writes each point's preferred flag |
| Glyf.SerializeEntry | src/TrueType/Tables/TtfTableGlyf.cs:121-130 | the same errors as the data, checked against the entry size; otherwise the entry with its written header and the header image followed by the data image |
| Glyf.ReadEndPts | src/TrueType/Tables/TtfTableGlyf.cs:241-246 | a successful read gives numberOfContours end points |
| Glyf.ReadRun | src/TrueType/Tables/TtfTableGlyf.cs:266-286 | one flag and its repeat count cover fewer points than remain to be read |
| Glyf.ReadFlagRuns | src/TrueType/Tables/TtfTableGlyf.cs:264-290 | a successful flag read gives exactly the number of points asked for |
| Glyf.ReadCoords | src/TrueType/Tables/TtfTableGlyf.cs:296-343 | a successful coordinate read gives one element per point |
| Glyf.CreateEntry | src/TrueType/Tables/TtfTableGlyf.cs:108-118 | the method reads the header, refuses a composite glyph with NotImplemented and otherwise reads the simple glyph, as `Create` says |
| Glyf.DecodeFlags | src/TrueType/Tables/TtfTableGlyf.cs:258-290 | the flag loop gives what `ReadFlagRuns` gives, including the repeat runs cut at the point count |
| Glyf.DecodeRun | src/TrueType/Tables/TtfTableGlyf.cs:266-286 | one turn of the flag loop reads the flag and, when bit 3 is set, its count, as `ReadRun` says |
| Glyf.AppendCopies | src/TrueType/Tables/TtfTableGlyf.cs:285 | the repeat loop appends `copies` copies of the point |
| Glyf.FlagRunsStep | src/TrueType/Tables/TtfTableGlyf.cs:264-287 | the flag read is the first run followed by the read of the points that remain |
| Glyf.DecodeCoords | src/TrueType/Tables/TtfTableGlyf.cs:296-318 | the coordinate loop gives what `ReadCoords` gives |
| Glyf.DeserializeGlyph | src/TrueType/Tables/TtfTableGlyf.cs:239-350 | the method gives what `ReadGlyph` gives: end points, instructions, flags and both coordinate passes |
| Glyf.DecodePoints | src/TrueType/Tables/TtfTableGlyf.cs:255-343 | the flags and the x and y passes give what `ReadPoints` gives |
| Glyf.Restored | src/TrueType/Tables/TtfTableGlyf.cs:365-382 | the element rebuilt by reading keeps the vector bits and carries the raw value written for it |
| Glyf.RestoredKeepsDelta | src/TrueType/Tables/TtfTableGlyf.cs:365-410 | reading back keeps the coordinate; an element on the array comes back unchanged, one off it with raw value 0, and one produced by `SetCoord` unchanged |
| Glyf.RestoredCanonical | src/TrueType/Tables/TtfTableGlyf.cs:365-410 | points whose coordinates were all set through `SetCoord` come back unchanged |
| Glyf.ReadCoordOf | src/TrueType/Tables/TtfTableGlyf.cs:296-318 | reading one coordinate over its image gives the restored element and moves past its bytes |
| Glyf.ReadFlagsOf | src/TrueType/Tables/TtfTableGlyf.cs:264-290 | reading the flags over the flag image gives the points with blank coordinates and moves past one byte per point |
| Glyf.ReadEndPtsOf | src/TrueType/Tables/TtfTableGlyf.cs:245-246 | reading the end points over their image gives them back |
| Glyf.DataRoundTrip | src/TrueType/Tables/TtfTableGlyf.cs:162-350 | reading the data image with a header counting the contours gives the end points, instructions and restored points back and ends after the image |
| Glyf.EntryRoundTrip | src/TrueType/Tables/TtfTableGlyf.cs:108-130 | a simple glyph with at least one contour, fewer than 2^16 instruction bytes and end points that count its points reads back from its entry image, whatever follows, with its written header and restored points |
| GlyfTable.Sizes | src/TrueType/Tables/TtfTableGlyf.cs:17-30 | one slot size per entry |
| GlyfTable.SlotSizeBounds | src/TrueType/Tables/TtfTableGlyf.cs:20-27 | a null entry takes no room; a glyph takes its size, rounded up to a multiple of 4 (by at most 3) when aligned |
| GlyfTable.OffsetStep | src/TrueType/Tables/TtfTableGlyf.cs:34-46 | the boundary after entry i is the one before it plus its slot, and never passes the total |
| GlyfTable.OffsetMonotone | src/TrueType/Tables/TtfTableGlyf.cs:34-46 | boundaries grow with the index, and the last is the total size |
| GlyfTable.Room | src/TrueType/Tables/TtfTableGlyf.cs:23-25 | the room an entry takes, rounding included |
| GlyfTable.GetSize | src/TrueType/Tables/TtfTableGlyf.cs:17-30 | the loop's sum is the total of the slot sizes |
| GlyfTable.SlotImages | src/TrueType/Tables/TtfTableGlyf.cs:32-47 | one slot image per entry, each as long as its slot |
| GlyfTable.Image | src/TrueType/Tables/TtfTableGlyf.cs:32-47 | the table image is as long as the total size |
| GlyfTable.ImageAt | src/TrueType/Tables/TtfTableGlyf.cs:32-47 | entry i's slot image lies in the table image between boundaries i and i + 1 |
| GlyfTable.Written | src/TrueType/Tables/TtfTableGlyf.cs:35-41 | writing keeps a null entry null and gives a glyph its written header |
| GlyfTable.Fill | src/TrueType/Tables/TtfTableGlyf.cs:32-47 | the destination holds the image at its start and keeps its length |
| GlyfTable.Serialize | src/TrueType/Tables/TtfTableGlyf.cs:32-47 | the first entry whose slot fails stops writing with that entry's error; otherwise every entry gets its written header and the destination holds the table image |
| GlyfTable.WriteSlot | src/TrueType/Tables/TtfTableGlyf.cs:37-41 | one turn fails exactly as the entry's slot check says, and otherwise gives the written entry and its slot image |
| GlyfTable.SerializeDone | src/TrueType/Tables/TtfTableGlyf.cs:32-47 | a loop that got through every entry wrote the whole image |
| GlyfTable.FirstErrorPrefix | src/TrueType/Tables/TtfTableGlyf.cs:35-46 | once an entry fails, later entries do not change the error |
| GlyfTable.SerializeSucceeds | src/TrueType/Tables/TtfTableGlyf.cs:35-46 | writing the first n entries succeeds exactly when none of their slots fails |
| GlyfTable.SerializeIntoOwnSize | src/TrueType/Tables/TtfTableGlyf.cs:32-47 | into a destination at least the table's size, writing succeeds exactly when every glyph's end points count its points |
| GlyfTable.ReadEntries | src/TrueType/Tables/TtfTableGlyf.cs:55-74 | a successful read gives one entry per offset after the first |
| GlyfTable.Deserialize | src/TrueType/Tables/TtfTableGlyf.cs:49-75 | no offsets fail (loca.Offsets[0] out of range); otherwise the entries read are appended after those already held, one per later offset |
| GlyfTable.DeserializeFrom | src/TrueType/Tables/TtfTableGlyf.cs:49-75 | the loop gives what `Deserialize` gives |
| GlyfTable.ReadEntryAt | src/TrueType/Tables/TtfTableGlyf.cs:60-73 | one turn gives null for an empty range and otherwise the glyph read from the slice between the two positions |
| GlyfTable.ReadStep | src/TrueType/Tables/TtfTableGlyf.cs:56-74 | a failing entry fails the whole read with its error, and a good one extends what was found |
| GlyfTable.Reparsed | src/TrueType/Tables/TtfTableGlyf.cs:32-75 | what a written entry reads back as: null stays null |
| GlyfTable.SliceBetween | src/TrueType/Tables/TtfTableGlyf.cs:70 | the slice for a range inside the buffer is a fresh reader over exactly those bytes |
| GlyfTable.ReadEntryOf | src/TrueType/Tables/TtfTableGlyf.cs:60-73 | entry k reads back from the table image between its two boundaries |
| GlyfTable.ReadAll | src/TrueType/Tables/TtfTableGlyf.cs:55-74 | with offsets that locate every entry, the loop reads every entry back |
| GlyfTable.RoundTrip | src/TrueType/Tables/TtfTableGlyf.cs:32-75 | reading the written table with locating offsets gives every entry back as written |
| Cmap.Distinct | src/TrueType/Tables/TtfTableCmap.cs:17-18 | the set of subtables holds each used subtable once and nothing else |
| Cmap.UsedFacts | src/TrueType/Tables/TtfTableCmap.cs:17-18 | every record's subtable is among the distinct subtables, all of them in the pool |
| Cmap.DistinctSubtables | src/TrueType/Tables/TtfTableCmap.cs:52-53 | the loop collects the records' subtables without duplicates, in first-seen order |
| Cmap.Sizes | src/TrueType/Tables/TtfTableCmap.cs:23-24 | one size per distinct subtable, its own `GetSize` |
| Cmap.GetSize | src/TrueType/Tables/TtfTableCmap.cs:15-29 | the loop gives 4 bytes of header, 8 per record and each distinct subtable's size once |
| Cmap.SharedRecordSize | src/TrueType/Tables/TtfTableCmap.cs:15-29 | a record that reuses a subtable already listed adds only its 8 bytes |
| Cmap.TotalAnyOrder | src/TrueType/Tables/TtfTableCmap.cs:23-24 | the sum of the subtable sizes does not depend on the order the set is walked in |
| Cmap.CompareByKey | src/TrueType/Tables/TtfTableCmap.cs:35-40 | the comparison is negative or zero exactly when (platformId, platformSpecificId) is smaller or equal |
| Cmap.Sorted | src/TrueType/Tables/TtfTableCmap.cs:35-40 | sorting keeps the pool, permutes the records and orders them by (platformId, platformSpecificId) |
| Cmap.SortedOrder | src/TrueType/Tables/TtfTableCmap.cs:31-40 | the sorted table is still valid, has the same size, and its records are in (platform, encoding) order |
| Cmap.SameIndices | src/TrueType/Tables/TtfTableCmap.cs:35-53 | permuting the records uses the same subtables |
| Cmap.Images | src/TrueType/Tables/TtfTableCmap.cs:61-67 | one subtable image per distinct subtable, in set order |
| Cmap.Rows | src/TrueType/Tables/TtfTableCmap.cs:69-80 | one conforming encoding row per record |
| Cmap.HeaderImage | src/TrueType/Tables/TtfTableCmap.cs:44-50 | the header image is 4 bytes: version 0 and the record count |
| Cmap.TableImageSize | src/TrueType/Tables/TtfTableCmap.cs:15-81 | the written image is exactly `GetSize` bytes |
| Cmap.SubtableStep | src/TrueType/Tables/TtfTableCmap.cs:61-67 | one turn of the subtable loop records the offset, appends the image and marks the subtable written |
| Cmap.WriteSubtables | src/TrueType/Tables/TtfTableCmap.cs:59-67 | an unwritable subtable (format 4 with no segments) fails with InvalidOperation; otherwise each distinct subtable's offset is recorded, their images are laid one after another and each becomes its written form |
| Cmap.OffsetsStep | src/TrueType/Tables/TtfTableCmap.cs:63-66 | the offset recorded for a subtable is where its image starts, cut to 32 bits |
| Cmap.PoolWrittenAll | src/TrueType/Tables/TtfTableCmap.cs:61-67 | after the loop the pool holds the written form of exactly the used subtables |
| Cmap.WriteRecords | src/TrueType/Tables/TtfTableCmap.cs:69-80 | the record loop writes, per record, its platform, encoding and its subtable's recorded offset |
| Cmap.Serialize | src/TrueType/Tables/TtfTableCmap.cs:31-81 | a wrong destination length fails with `ArgumentException`; an unwritable subtable fails with InvalidOperation; otherwise the records are sorted, each shared subtable is written once and the bytes are header, records and subtables |
| Cmap.SizeField | src/TrueType/Tables/TtfTableCmap.cs:116-151 | the stored size is a 16-bit field for formats 0, 4 and 6, a 32-bit field after a reserved word for 12, and any other format is NotSupported |
| Cmap.ReadEncodingsStep | src/TrueType/Tables/TtfTableCmap.cs:97-160 | one turn reads a record and adds it, then the loop continues with one record fewer |
| Cmap.Deserialize | src/TrueType/Tables/TtfTableCmap.cs:83-161 | the method gives what `Parse` gives: version 0 or NotSupported, then the records, each new offset parsed once |
| Cmap.ReadRecords | src/TrueType/Tables/TtfTableCmap.cs:97-160 | the record loop gives what `ReadEncodings` gives |
| Cmap.AddRecordShares | src/TrueType/Tables/TtfTableCmap.cs:102-159 | adding a record keeps records sharing a subtable exactly when they stored the same offset, and appends the record's offset |
| Cmap.ReadEncodingsOffsets | src/TrueType/Tables/TtfTableCmap.cs:97-160 | a successful read consumes 8 bytes per record and the offsets it keeps are those stored in the records |
| Cmap.ReadEncodingsShares | src/TrueType/Tables/TtfTableCmap.cs:97-160 | the whole loop keeps the sharing invariant |
| Cmap.SharesValid | src/TrueType/Tables/TtfTableCmap.cs:94-159 | a table built under the sharing invariant is valid, and two records share a subtable exactly when their offsets are equal |
| Cmap.ParseShares | src/TrueType/Tables/TtfTableCmap.cs:83-161 | a table read back is valid, uses every pooled subtable, and two records share a subtable exactly when they store the same offset |
| CmapSubtables.Log2Bounds | src/TrueType/Tables/TtfTableCmap.cs:283-294 | the highest set bit k of p satisfies 2^k ≤ p < 2^(k+1) |
| CmapSubtables.HighestBit | src/TrueType/Tables/TtfTableCmap.cs:283-294 | the shifting loop finds the highest set bit of the segment count |
| CmapSubtables.Written4Fields | src/TrueType/Tables/TtfTableCmap.cs:296-304 | for 0 < n < 0x8000 segments: segCountX2 = 2n, entrySelector = ⌊log2 n⌋, searchRange = 2·2^entrySelector, rangeShift = 2n − searchRange |
| CmapSubtables.Ends | src/TrueType/Tables/TtfTableCmap.cs:323-331 | the endCode column holds each segment's end code, in order |
| CmapSubtables.Starts | src/TrueType/Tables/TtfTableCmap.cs:323-331 | the startCode column holds each segment's start code, in order |
| CmapSubtables.Deltas | src/TrueType/Tables/TtfTableCmap.cs:323-331 | the idDelta column holds each segment's delta, in order |
| CmapSubtables.RangeOffsets | src/TrueType/Tables/TtfTableCmap.cs:323-331 | the idRangeOffset column holds each segment's range offset, in order |
| CmapSubtables.Body4 | src/TrueType/Tables/TtfTableCmap.cs:262-272 | the format-4 body is 8 bytes per segment, 2 of padding and 2 per glyph index |
| CmapSubtables.ImageSize | src/TrueType/Tables/TtfTableCmap.cs:214-494 | writing does not change a subtable's size, and its image is `GetSize` bytes |
| CmapSubtables.SplitSegments | src/TrueType/Tables/TtfTableCmap.cs:323-331 | the segment loop fills the four columns |
| CmapSubtables.SerializeGroups | src/TrueType/Tables/TtfTableCmap.cs:489-493 | the group loop writes each group's three 32-bit words big-endian |
| CmapSubtables.Serialize | src/TrueType/Tables/TtfTableCmap.cs:219-494 | a destination of the wrong length fails with `ArgumentException`, a format-4 subtable with no segments with `InvalidOperationException`; otherwise the written subtable and its image |
| CmapSubtables.Serialize0 | src/TrueType/Tables/TtfTableCmap.cs:219-233 | format 0 needs exactly 262 bytes and writes format 0, length 262, the language and the 256 glyph indices |
| CmapSubtables.Serialize4 | src/TrueType/Tables/TtfTableCmap.cs:274-341 | format 4 checks the length, refuses zero segments and writes the header fields and the four columns and the glyph array |
| CmapSubtables.Serialize6 | src/TrueType/Tables/TtfTableCmap.cs:422-436 | format 6 needs 10 + 2·entries bytes and writes the header with its length and the glyph array |
| CmapSubtables.Serialize12 | src/TrueType/Tables/TtfTableCmap.cs:475-494 | format 12 needs 16 + 12·groups bytes and writes format 12, reserved 0, the length, numGroups and the groups |
| CmapSubtables.Parse0AsWritten | src/TrueType/Tables/TtfTableCmap.cs:235-243 | a successful read gives a format-0 subtable |
| CmapSubtables.Parse4 | src/TrueType/Tables/TtfTableCmap.cs:343-389 | a successful read gives segCountX2 / 2 segments |
| CmapSubtables.Parse6 | src/TrueType/Tables/TtfTableCmap.cs:438-451 | a successful read gives exactly entryCount glyph indices |
| CmapSubtables.Parse12 | src/TrueType/Tables/TtfTableCmap.cs:496-510 | a successful read gives exactly numGroups groups |
| CmapSubtables.ReadColumns | src/TrueType/Tables/TtfTableCmap.cs:351-358 | a successful read gives four fresh column readers of segCountX2 bytes each |
| CmapSubtables.Deserialize4 | src/TrueType/Tables/TtfTableCmap.cs:343-389 | the method gives what `Parse4` gives |
| CmapSubtables.ReadSegments | src/TrueType/Tables/TtfTableCmap.cs:360-374 | the segment loop rebuilds the segments from the four columns |
| CmapSubtables.ReadGlyphArray | src/TrueType/Tables/TtfTableCmap.cs:376-388 | the glyph loop reads every whole 16-bit value that remains, none when nothing remains |
| CmapSubtables.RoundTrip0 | src/TrueType/Tables/TtfTableCmap.cs:219-243 | the corrected format-0 read gives the written subtable back |
| CmapSubtables.RoundTrip0AsWritten | src/TrueType/Tables/TtfTableCmap.cs:235-243 | the format-0 read as written gives the header's 6 bytes and the first 250 glyph indices as the glyph array |
| CmapSubtables.RoundTrip0Fails | src/TrueType/Tables/TtfTableCmap.cs:242 | a format-0 subtable mapping code 0 to glyph 1 does not read back as written |
| CmapSubtables.RoundTrip4 | src/TrueType/Tables/TtfTableCmap.cs:274-389 | a format-4 subtable with 1 to 0x7FFF segments reads back to its written form |
| CmapSubtables.ColumnsBack | src/TrueType/Tables/TtfTableCmap.cs:360-374 | decoding the four column images gives the segments back |
| CmapSubtables.RoundTrip6 | src/TrueType/Tables/TtfTableCmap.cs:422-451 | a format-6 subtable whose entryCount matches its array reads back to its written form |
| CmapSubtables.RoundTrip12 | src/TrueType/Tables/TtfTableCmap.cs:475-510 | a format-12 subtable whose numGroups fits reads back to its written form |
| CmapSubtables.HeaderOfImage | src/TrueType/Tables/TtfTableCmap.cs:116-151 | a written image starts with its format, then its size as the table's reader expects it: 16-bit at byte 2, or 32-bit at byte 4 for format 12 |
| CmapSubtables.RoundTrip | src/TrueType/Tables/TtfTableCmap.cs:219-510 | every parsable subtable other than format 0 reads back to its written form; format 0 reads back as the written quirk gives it |
| Ebdt.LayoutSizes | src/TrueType/Tables/TtfTableEbdt.cs:156-186 | the header record is 4 bytes, the small metrics record 5 and the big metrics record 8, as the structs declare |
| Ebdt.SmallOf | src/TrueType/Tables/TtfTableEbdt.cs:179-186 | reading back a conforming small-metrics row gives the same row: the record's fields round-trip |
| Ebdt.BigOf | src/TrueType/Tables/TtfTableEbdt.cs:166-176 | reading back a conforming big-metrics row gives the same row |
| Ebdt.MetricsImage | src/TrueType/Tables/TtfTableEbdt.cs:368-375 | the metrics written before the pixels are exactly the size of the format's metrics record (none for format 5) |
| Ebdt.ImageFits | src/TrueType/Tables/TtfTableEbdt.cs:362-366 | the bytes a bitmap writes never exceed what its `GetSize` reports |
| Ebdt.SerializeBitmap | src/TrueType/Tables/TtfTableEbdt.cs:345-530 | formats 1, 2, 6 and 7 fail with ArgumentOutOfRange, writing nothing, exactly when the span is shorter than `GetSize`; format 5 fails with IndexOutOfRange exactly when its image does not fit; on success the span starts with the metrics and the packed pixels and nothing else changes |
| Ebdt.SerializeWithMetrics | src/TrueType/Tables/TtfTableEbdt.cs:368-375 | a bitmap with metrics writes its metrics record followed by its pixels at the start of its span |
| Ebdt.SerializePixels | src/TrueType/Tables/TtfTableEbdt.cs:258-321 | the pixel writer chosen by the format lays exactly the format's packed image |
| Ebdt.SizeOfConcat | src/TrueType/Tables/TtfTableEbdt.cs:33-37 | the size summed over two runs of bitmaps is the sum of their sizes |
| Ebdt.Validate | src/TrueType/Tables/TtfTableEbdt.cs:23-31 | validation forces version 2.0 and keeps the sections |
| Ebdt.HeaderImage | src/TrueType/Tables/TtfTableEbdt.cs:43 | the header written is 4 bytes |
| Ebdt.PlaceSnoc | src/TrueType/Tables/TtfTableEbdt.cs:48-54 | placing one more bitmap writes its image at the cursor, which has advanced by the sizes of those before it |
| Ebdt.SerializeNext | src/TrueType/Tables/TtfTableEbdt.cs:50-54 | one turn of the bitmap loop writes the bitmap at the cursor and advances the cursor by its `GetSize` |
| Ebdt.SerializeSection | src/TrueType/Tables/TtfTableEbdt.cs:48-54 | the inner loop lays a whole section after those already written |
| Ebdt.Serialize | src/TrueType/Tables/TtfTableEbdt.cs:39-56 | the table fails with ArgumentOutOfRange, writing nothing, exactly when the destination is shorter than `GetSize`; otherwise it writes the header and then every bitmap of every section, each at the running sum of the earlier sizes |
| EbdtBits.Row | src/TrueType/Tables/TtfTableEbdt.cs:300-307 | one row of the bitmap, left to right, has `width` pixels |
| EbdtBits.Rows | src/TrueType/Tables/TtfTableEbdt.cs:266-267 | the first n rows in order hold n times `width` pixels |
| EbdtBits.RowsBit | src/TrueType/Tables/TtfTableEbdt.cs:266-271 | pixel (x, y) is bit y * width + x of the bit stream, set exactly when the pixel is non-zero |
| EbdtBits.NumBound | src/TrueType/Tables/TtfTableEbdt.cs:270-272 | up to eight bits shifted into a byte stay below 2 to the number of bits |
| EbdtBits.Pack | src/TrueType/Tables/TtfTableEbdt.cs:258-288 | packing a bit stream takes one byte per started group of eight bits |
| EbdtBits.PackAppend | src/TrueType/Tables/TtfTableEbdt.cs:297-319 | packing after a whole number of bytes appends the packing of the rest |
| EbdtBits.PackBit | src/TrueType/Tables/TtfTableEbdt.cs:270-274 | bit k of the stream is the (k mod 8)-th bit from the top of byte k / 8, which is what makes the packing invertible |
| EbdtBits.BitAligned | src/TrueType/Tables/TtfTableEbdt.cs:258-288 | the bit-aligned image is width times height bits rounded up to whole bytes |
| EbdtBits.ByteAligned | src/TrueType/Tables/TtfTableEbdt.cs:290-321 | the byte-aligned image starts every row on a byte: height times the row's byte count |
| EbdtBits.BitAlignedSize | src/TrueType/Tables/TtfTableEbdt.cs:248-251 | `GetSizeOfBitAlignedBitmap` is at least the bytes the bit-aligned image needs |
| EbdtBits.ByteAlignedSize | src/TrueType/Tables/TtfTableEbdt.cs:253-256 | `GetSizeOfByteAlignedByLineBitmap` is at least the bytes the byte-aligned image needs |
| EbdtBits.PushNum | src/TrueType/Tables/TtfTableEbdt.cs:270-272 | shifting the byte left by one within 8 bits and or-ing the pixel gives the value of the last eight bits pushed |
| EbdtBits.PushPixel | src/TrueType/Tables/TtfTableEbdt.cs:270-274 | one pixel step keeps the invariant: the bytes completed so far are written and `current` holds the unfinished byte; the cursor moves by one |
| EbdtBits.PackRow | src/TrueType/Tables/TtfTableEbdt.cs:300-307 | the inner loop pushes the whole row, keeping the same invariant |
| EbdtBits.PadBits | src/TrueType/Tables/TtfTableEbdt.cs:281-285 | the padding loop shifts zeros in until the cursor reaches the next byte boundary, one to seven places on, and the byte is shifted by exactly that many places |
| EbdtBits.PadRun | src/TrueType/Tables/TtfTableEbdt.cs:310-318 | after the padding the destination holds the packing of every bit pushed, and the cursor is on a byte boundary |
| EbdtBits.SerializeBitAligned | src/TrueType/Tables/TtfTableEbdt.cs:258-288 | the writer lays exactly the bit-aligned image at the start of the span and changes nothing else |
| EbdtBits.BitRun | src/TrueType/Tables/TtfTableEbdt.cs:266-279 | one row of the bit-aligned loop extends the written stream by that row |
| EbdtBits.BitFinish | src/TrueType/Tables/TtfTableEbdt.cs:281-287 | flushing the last partial byte completes the bit-aligned image |
| EbdtBits.SerializeByteAligned | src/TrueType/Tables/TtfTableEbdt.cs:290-321 | the writer lays exactly the byte-aligned image at the start of the span and changes nothing else |
| EbdtBits.LineRun | src/TrueType/Tables/TtfTableEbdt.cs:299-319 | one row of the byte-aligned loop appends the packed, padded row |
| EbdtBits.Marks | src/TrueType/Tables/TtfTableEbdt.cs:238 | reading keeps only whether a pixel is set, as the mark value the reader stores |
| EbdtBits.BitAlignedRead | src/TrueType/Tables/TtfTableEbdt.cs:226-246 | a successful bit-aligned read yields a width by height bitmap |
| EbdtBits.ByteAlignedRead | src/TrueType/Tables/TtfTableEbdt.cs:202-224 | the byte-aligned reader with each row's first byte loaded before its first pixel yields a width by height bitmap |
| EbdtBits.ByteAlignedReadAsWritten | src/TrueType/Tables/TtfTableEbdt.cs:202-224 | the byte-aligned reader as written, which loads a row's first byte only after eight pixels, yields a width by height bitmap |
| EbdtBits.TakePixel | src/TrueType/Tables/TtfTableEbdt.cs:238-243 | one bit-aligned step loads a new byte on a byte boundary and stores the stream's bit k; it fails with IndexOutOfRange only when the buffer ends before the image does |
| EbdtBits.SetCell | src/TrueType/Tables/TtfTableEbdt.cs:240 | storing a pixel changes that cell of the result array and no other |
| EbdtBits.ReadRow | src/TrueType/Tables/TtfTableEbdt.cs:236-244 | the inner loop stores row y from the stream's bits and leaves the other rows alone |
| EbdtBits.ReadBitAligned | src/TrueType/Tables/TtfTableEbdt.cs:226-246 | the imperative reader fills the array exactly as `BitAlignedRead` says, errors included |
| EbdtBits.TakeLatePixel | src/TrueType/Tables/TtfTableEbdt.cs:215-220 | one step of the as-written row reader stores the top bit of the byte in hand, which lags the row by one byte |
| EbdtBits.ReadLateRow | src/TrueType/Tables/TtfTableEbdt.cs:206-222 | the as-written row loop consumes width / 8 bytes and stores the lagged pixels |
| EbdtBits.ReadByteAligned | src/TrueType/Tables/TtfTableEbdt.cs:202-224 | the imperative reader fills the array exactly as `ByteAlignedReadAsWritten` says, errors included |
| EbdtBits.MonospaceReadAsWritten | src/TrueType/Tables/TtfTableEbdt.cs:421-445 | the format 5 reader as written yields a width by height bitmap |
| EbdtBits.MonospaceRead | src/TrueType/Tables/TtfTableEbdt.cs:421-445 | the format 5 reader keeping one bit per pixel yields a width by height bitmap |
| EbdtBits.MonoPixel | src/TrueType/Tables/TtfTableEbdt.cs:438-443 | one format 5 step stores the byte shifted right by 7 after k mod 8 left shifts, and fails with IndexOutOfRange only when the bytes run out |
| EbdtBits.MonoRow | src/TrueType/Tables/TtfTableEbdt.cs:435-443 | the inner loop stores row y and leaves the other rows alone |
| EbdtBits.ReadMonospace | src/TrueType/Tables/TtfTableEbdt.cs:421-445 | the imperative format 5 reader fills the array exactly as `MonospaceReadAsWritten` says |
| EbdtBits.BitAlignedRoundTrip | src/TrueType/Tables/TtfTableEbdt.cs:226-288 | reading back a bit-aligned image gives every pixel's mark and leaves the reader just past the image |
| EbdtBits.ByteAlignedRoundTrip | src/TrueType/Tables/TtfTableEbdt.cs:202-321 | reading back a byte-aligned image with the corrected reader gives every pixel's mark and leaves the reader just past the image |
| EbdtBits.MonospaceRoundTrip | src/TrueType/Tables/TtfTableEbdt.cs:421-445 | reading back a bit-aligned image with the corrected format 5 reader gives every pixel as 0 or 1 |
| EbdtBits.ByteAlignedAsWrittenAt | src/TrueType/Tables/TtfTableEbdt.cs:202-224 | the as-written reader's result depends only on the image bytes and moves the reader by height times width / 8 |
| EbdtBits.ByteAlignedAsWrittenRoundTrip | src/TrueType/Tables/TtfTableEbdt.cs:202-224 | for widths that are multiples of 8 the as-written reader returns the image shifted right by eight pixels in every row |
| EbdtBits.ByteAlignedAsWrittenDiffers | src/TrueType/Tables/TtfTableEbdt.cs:215 | any set pixel among a row's first eight reads back as 0 with the as-written reader and as set with the corrected one |
| EbdtBits.ByteAlignedAsWrittenLosesPixel | src/TrueType/Tables/TtfTableEbdt.cs:215-220 | the one-pixel image 0x80 reads back as a blank pixel |
| EbdtBits.ByteAlignedKeepsPixel | src/TrueType/Tables/TtfTableEbdt.cs:202-224 | the corrected reader reads the same image back as a set pixel |
| EbdtBits.MonospaceAsWrittenRoundTrip | src/TrueType/Tables/TtfTableEbdt.cs:421-445 | the as-written format 5 reader returns values whose lowest bit is the written pixel |
| EbdtBits.MonoAsWrittenPrefix | src/TrueType/Tables/TtfTableEbdt.cs:430 | the format 5 reader looks only at the first `imageSize` bytes of its input |
| EbdtBits.MonospaceAsWrittenSmears | src/TrueType/Tables/TtfTableEbdt.cs:440 | the image 0x80 of a 2 by 1 bitmap with its first pixel set reads back as pixels 1 and 2 as written, and as 1 and 0 corrected |
| EbdtRead.ReadSmall | src/TrueType/Tables/TtfTableEbdt.cs:351 | reading the small metrics record moves the reader by 5 bytes |
| EbdtRead.ReadBig | src/TrueType/Tables/TtfTableEbdt.cs:467 | reading the big metrics record moves the reader by 8 bytes |
| EbdtRead.PixelsRead | src/TrueType/Tables/TtfTableEbdt.cs:355-359 | the bitmap read has the width and height of the metrics just read |
| EbdtRead.BitmapRead | src/TrueType/Tables/TtfTableEbdt.cs:349-514 | a glyph read with a variable-metrics format is a bitmap of that format |
| EbdtRead.Bitmap5Read | src/TrueType/Tables/TtfTableEbdt.cs:421-445 | a format 5 glyph takes a non-negative `imageSize` bytes and moves the reader by exactly that |
| EbdtRead.MonospaceGlyphs | src/TrueType/Tables/TtfTableEbdt.cs:92-98 | a monospace section holds `numGlyphs` glyphs |
| EbdtRead.GlyphReads | src/TrueType/Tables/TtfTableEbdt.cs:114-131 | glyph j is read from the window between offsets j and j + 1 |
| EbdtRead.VariableGlyphs | src/TrueType/Tables/TtfTableEbdt.cs:120-132 | a variable-metrics section holds `numGlyphs` glyphs |
| EbdtRead.Sections | src/TrueType/Tables/TtfTableEbdt.cs:69-150 | one section per index subtable of the EBLC table, in order |
| EbdtRead.Parse | src/TrueType/Tables/TtfTableEbdt.cs:58-152 | a parsed table has version 2.0 and one section per index subtable; any other version fails |
| EbdtRead.DeserializePixels | src/TrueType/Tables/TtfTableEbdt.cs:359 | the imperative pixel read returns exactly `PixelsRead`, errors included |
| EbdtRead.DeserializeBitmap | src/TrueType/Tables/TtfTableEbdt.cs:349-514 | the imperative `Deserialize` of formats 1, 2, 6 and 7 returns exactly `BitmapRead` |
| EbdtRead.DeserializeBitmap5 | src/TrueType/Tables/TtfTableEbdt.cs:421-445 | the imperative format 5 `Deserialize` returns exactly `Bitmap5Read` |
| EbdtRead.DeserializeMonospace | src/TrueType/Tables/TtfTableEbdt.cs:90-98 | the monospace loop returns exactly `MonospaceGlyphs` |
| EbdtRead.DeserializeVariable | src/TrueType/Tables/TtfTableEbdt.cs:110-137 | fewer than numGlyphs + 1 offsets fails with InvalidOperation; no offsets gives an empty section; otherwise the loop returns `VariableGlyphs` |
| EbdtRead.DeserializeGlyphs | src/TrueType/Tables/TtfTableEbdt.cs:118-134 | the glyph loop returns exactly `VariableGlyphs` |
| EbdtRead.DeserializeGlyphNext | src/TrueType/Tables/TtfTableEbdt.cs:124-133 | one turn appends glyph i to the section, or its error is the whole section's error |
| EbdtRead.DeserializeGlyph | src/TrueType/Tables/TtfTableEbdt.cs:124-130 | one glyph read from its window returns exactly `GlyphAt` |
| EbdtRead.DeserializeSection | src/TrueType/Tables/TtfTableEbdt.cs:71-149 | one index subtable's section returns exactly `SectionRead`: image format 5 with monospace indexes only, formats 1, 2, 6 and 7 otherwise, NotSupported for the rest |
| EbdtRead.Deserialize | src/TrueType/Tables/TtfTableEbdt.cs:58-152 | the imperative `Deserialize` returns exactly `Parse` |
| EbdtRoundTrip.Normal | src/TrueType/Tables/TtfTableEbdt.cs:345-530 | the normal form of a bitmap keeps its format and its dimensions |
| EbdtRoundTrip.Reread | src/TrueType/Tables/TtfTableEbdt.cs:202-445 | what the readers as written give back for a bitmap keeps its format and its dimensions |
| EbdtRoundTrip.RereadBitAligned | src/TrueType/Tables/TtfTableEbdt.cs:226-288 | bit-aligned formats 2 and 7 read back their normal form |
| EbdtRoundTrip.RereadByteAligned | src/TrueType/Tables/TtfTableEbdt.cs:202-224 | byte-aligned formats 1 and 6 of a width that is a multiple of 8 read back with every row moved eight pixels right |
| EbdtRoundTrip.RereadMonospace | src/TrueType/Tables/TtfTableEbdt.cs:438-443 | format 5 reads back with its normal form in the lowest bit of every pixel |
| EbdtRoundTrip.NormalImage | src/TrueType/Tables/TtfTableEbdt.cs:258-321 | a bitmap and its normal form write the same bytes and have the same size |
| EbdtRoundTrip.NormalNormal | src/TrueType/Tables/TtfTableEbdt.cs:258-321 | normalising is idempotent and keeps consistency |
| EbdtRoundTrip.BitmapRoundTrip | src/TrueType/Tables/TtfTableEbdt.cs:345-530 | reading a consistent variable-metrics bitmap's image gives back what the readers make of it |
| EbdtRoundTrip.MetricsRoundTrip | src/TrueType/Tables/TtfTableEbdt.cs:166-186 | the metrics record written is read back unchanged, past its 5 or 8 bytes |
| EbdtRoundTrip.PixelsRoundTrip | src/TrueType/Tables/TtfTableEbdt.cs:202-321 | the pixels written are read back by the format's reader as its reread form |
| EbdtRoundTrip.Bitmap5RoundTrip | src/TrueType/Tables/TtfTableEbdt.cs:421-458 | a format 5 image inside an `imageSize` window is read back, moving the reader by `imageSize` |
| EbdtRoundTrip.PlaceLies | src/TrueType/Tables/TtfTableEbdt.cs:48-54 | after the bitmap loop each bitmap's image lies at the sum of the sizes before it |
| EbdtRoundTrip.PlaceBelow | src/TrueType/Tables/TtfTableEbdt.cs:45-54 | the bitmap loop writes nothing before its start |
| EbdtRoundTrip.LaidHolds | src/TrueType/Tables/TtfTableEbdt.cs:39-56 | section k of a serialized table lies after the header and the earlier sections, within `GetSize` |
| EbdtRoundTrip.LaidHeader | src/TrueType/Tables/TtfTableEbdt.cs:43 | a serialized table starts with its header |
| EbdtRoundTrip.VariableGlyph | src/TrueType/Tables/TtfTableEbdt.cs:124-130 | when the EBLC offsets describe the laid section, glyph i's window reads back glyph i |
| EbdtRoundTrip.VariableRoundTrip | src/TrueType/Tables/TtfTableEbdt.cs:110-137 | a variable-metrics section whose offsets match the sizes written reads back glyph for glyph |
| EbdtRoundTrip.MonospaceGlyph | src/TrueType/Tables/TtfTableEbdt.cs:92-98 | glyph i of a monospace section reads back from its `imageSize` slot |
| EbdtRoundTrip.MonospaceRoundTrip | src/TrueType/Tables/TtfTableEbdt.cs:90-98 | a monospace section whose `imageSize` matches the bitmap size reads back glyph for glyph |
| EbdtRoundTrip.SectionRoundTrip | src/TrueType/Tables/TtfTableEbdt.cs:71-149 | a section described by its index subtable reads back from the image data offset |
| EbdtRoundTrip.LaidSection | src/TrueType/Tables/TtfTableEbdt.cs:39-149 | section k of a serialized table reads back through its locator |
| EbdtRoundTrip.LaidSections | src/TrueType/Tables/TtfTableEbdt.cs:39-149 | every section of a serialized table reads back, in order |
| EbdtRoundTrip.TableRoundTrip | src/TrueType/Tables/TtfTableEbdt.cs:39-152 | a version 2.0 table serialized and parsed with locators that describe it gives back its header and each section's reread form |
| EbdtRoundTrip.LaidHeaderRead | src/TrueType/Tables/TtfTableEbdt.cs:58-65 | the header read back from a serialized table is version 2.0, so the version check passes |
| Eblc.LineLayoutSize | src/TrueType/Tables/TtfTableEblc.cs:203-217 | the line metrics record is 12 bytes, its two pad bytes included |
| Eblc.LayoutSizes | src/TrueType/Tables/TtfTableEblc.cs:167-233 | the header, lookup and subtable header records are 8 bytes each |
| Eblc.HeaderOf | src/TrueType/Tables/TtfTableEblc.cs:167-176 | a conforming header row reads back to the same row |
| Eblc.LineOf | src/TrueType/Tables/TtfTableEblc.cs:203-217 | a conforming line metrics row reads back to the same row |
| Eblc.SizeImage | src/TrueType/Tables/TtfTableEblc.cs:179-193 | a bitmap size record is 48 bytes |
| Eblc.LineRoundTrip | src/TrueType/Tables/TtfTableEblc.cs:203-217 | line metrics written and read back are unchanged |
| Eblc.SizeRoundTrip | src/TrueType/Tables/TtfTableEblc.cs:179-193 | a bitmap size record written and read back from its 48 bytes is unchanged |
| Eblc.LookupOf | src/TrueType/Tables/TtfTableEblc.cs:220-225 | a conforming lookup row reads back to the same row |
| Eblc.SubHeaderOf | src/TrueType/Tables/TtfTableEblc.cs:228-233 | a conforming subtable header row reads back to the same row |
| Eblc.Cast32 | src/TrueType/Tables/TtfTableEblc.cs:89 | the `(uint)` cast leaves values below 2^32 unchanged |
| Eblc.BodyImage | src/TrueType/Tables/TtfTableEblc.cs:493-575 | the body written is exactly `GetBodySize` bytes: 4 per offset for format 1, 12 for format 2, 2 per offset for format 3 |
| Eblc.SubImage | src/TrueType/Tables/TtfTableEblc.cs:92-99 | a subtable image is its 8-byte header plus its body padded to a multiple of 4 |
| Eblc.WrittenSub | src/TrueType/Tables/TtfTableEblc.cs:86-101 | serializing sets only the subtable's `additionalOffsetToIndexSubtable`, to the running cursor after the lookups, cut to 32 bits |
| Eblc.SubImagesLengths | src/TrueType/Tables/TtfTableEblc.cs:88-101 | the subtable images follow one another, each as long as its size |
| Eblc.Block | src/TrueType/Tables/TtfTableEblc.cs:43-56 | the block of one strike has the size `GetSize` counts: 8 bytes per lookup plus each subtable's header and aligned body |
| Eblc.WrittenData | src/TrueType/Tables/TtfTableEblc.cs:103-109 | the size record written keeps the metrics and glyph range and sets the array offset, the tables size, the subtable count and `colorRef` to 0 |
| Eblc.Written | src/TrueType/Tables/TtfTableEblc.cs:64-68 | the table after `Serialize` has version 2.0, `numSizes` the strike count, and each strike as written |
| Eblc.SizeImagesAt | src/TrueType/Tables/TtfTableEblc.cs:110 | size record i lies at 48 * i after the header |
| Eblc.BlocksLengths | src/TrueType/Tables/TtfTableEblc.cs:79-113 | the strikes' blocks follow one another, each as long as its size |
| Eblc.HeaderImage | src/TrueType/Tables/TtfTableEblc.cs:70 | the header written is 8 bytes |
| Eblc.ImageSize | src/TrueType/Tables/TtfTableEblc.cs:35-113 | the image `Serialize` writes is exactly `GetSize` bytes |
| Eblc.SerializeBody | src/TrueType/Tables/TtfTableEblc.cs:498-575 | the imperative body writers produce exactly `BodyImage` |
| Eblc.SubsStep | src/TrueType/Tables/TtfTableEblc.cs:88-101 | one turn of the subtable loop records the cursor in the lookup and appends the lookup row and the subtable image |
| Eblc.SubWritten | src/TrueType/Tables/TtfTableEblc.cs:96-101 | the header, the body and the alignment padding together are the subtable image and advance the cursor by its size |
| Eblc.SubsDone | src/TrueType/Tables/TtfTableEblc.cs:86-101 | after the subtable loop the cursor is the strike's tables size, every lookup is updated and the lookups and bodies form the strike's block |
| Eblc.SerializeNext | src/TrueType/Tables/TtfTableEblc.cs:86-101 | one turn of the imperative subtable loop keeps the loop invariant |
| Eblc.SerializeStrike | src/TrueType/Tables/TtfTableEblc.cs:81-112 | one strike writes its updated size record and subtables and its block |
| Eblc.SizesStep | src/TrueType/Tables/TtfTableEblc.cs:79-113 | one turn of the strike loop appends the size record and the block and moves the cursor past the block |
| Eblc.SizesDone | src/TrueType/Tables/TtfTableEblc.cs:79-113 | after the strike loop the header, the size records and the blocks form the whole image |
| Eblc.SerializeSize | src/TrueType/Tables/TtfTableEblc.cs:79-113 | one turn of the imperative strike loop keeps the loop invariant |
| Eblc.Serialize | src/TrueType/Tables/TtfTableEblc.cs:60-114 | a destination shorter than `GetSize` fails with IndexOutOfRange; otherwise the table becomes its written form and the destination holds its image followed by the untouched zeros |
| EblcRead.Add32 | src/TrueType/Tables/TtfTableEblc.cs:142 | `offset + additionalOffset` wraps as C# `int` addition and equals the sum when that fits |
| EblcRead.BodyRead | src/TrueType/Tables/TtfTableEblc.cs:472-563 | a body read keeps the index format, refuses any format but 1, 2 and 3 with NotSupported, and reads numGlyphs + 1 offsets of the format's width |
| EblcRead.SubtableAt | src/TrueType/Tables/TtfTableEblc.cs:140-158 | subtable i is read at the array offset plus its lookup's additional offset, with no section attached and the format of its header |
| EblcRead.StrikeRead | src/TrueType/Tables/TtfTableEblc.cs:130-161 | a strike read keeps its size record and reads `numberOfIndexSubTables` subtables |
| EblcRead.Parse | src/TrueType/Tables/TtfTableEblc.cs:118-163 | a parsed table has version 2.0 and `numSizes` strikes; any other version fails |
| EblcRead.LocatorOf | src/TrueType/Tables/TtfTableEbdt.cs:71-80 | what EBDT reads from a subtable: its image format, image data offset, glyph count and whether it is monospace |
| EblcRead.Locators | src/TrueType/Tables/TtfTableEbdt.cs:71-72 | one locator per subtable, strike by strike |
| EblcRead.AttachStrike | src/TrueType/Tables/TtfTableEbdt.cs:99 | attaching gives subtable j of a strike the section numbered from the strike's base |
| EblcRead.Attach | src/TrueType/Tables/TtfTableEbdt.cs:97-148 | attaching keeps the header and the strikes |
| EblcRead.AttachedSection | src/TrueType/Tables/TtfTableEbdt.cs:97-148 | every subtable's attached section is the one EBDT read through that subtable's locator |
| EblcRead.DeserializeSubtable | src/TrueType/Tables/TtfTableEblc.cs:142-158 | the imperative subtable read returns exactly `SubtableAt` and moves the lookup reader by 8 bytes |
| EblcRead.DeserializeStrike | src/TrueType/Tables/TtfTableEblc.cs:132-161 | the imperative strike read returns exactly `StrikeRead` |
| EblcRead.DeserializeNext | src/TrueType/Tables/TtfTableEblc.cs:130-161 | one turn of the strike loop appends the strike, or its error is the whole table's error |
| EblcRead.Deserialize | src/TrueType/Tables/TtfTableEblc.cs:118-163 | the imperative `Deserialize` returns exactly `Parse` |
| EblcRoundTrip.DetachStrike | src/TrueType/Tables/TtfTableEblc.cs:132-161 | a strike as read has no sections attached and is otherwise the strike |
| EblcRoundTrip.Detached | src/TrueType/Tables/TtfTableEblc.cs:118-163 | the table as read keeps the header and every strike, detached |
| EblcRoundTrip.Offsets32Read | src/TrueType/Tables/TtfTableEblc.cs:472-476 | format 1 offsets written as 32-bit words read back unchanged |
| EblcRoundTrip.Offsets16Read | src/TrueType/Tables/TtfTableEblc.cs:560-564 | format 3 offsets written as 16-bit words read back unchanged |
| EblcRoundTrip.MonospaceRead | src/TrueType/Tables/TtfTableEblc.cs:527-545 | the format 2 image size and big metrics read back unchanged |
| EblcRoundTrip.BodyRoundTrip | src/TrueType/Tables/TtfTableEblc.cs:472-575 | any body holding numGlyphs + 1 offsets (or a monospace body) reads back unchanged after its header |
| EblcRoundTrip.SubRoundTrip | src/TrueType/Tables/TtfTableEblc.cs:145-156 | a well-formed subtable image reads back its header and its body |
| EblcRoundTrip.SubtablePlaced | src/TrueType/Tables/TtfTableEblc.cs:86-101 | lookup j lies at 8 * j in the strike's block and subtable j at its recorded offset, inside the block |
| EblcRoundTrip.SubtableRoundTrip | src/TrueType/Tables/TtfTableEblc.cs:140-158 | subtable j of a written block reads back as the written subtable, detached |
| EblcRoundTrip.SubtablesRoundTrip | src/TrueType/Tables/TtfTableEblc.cs:140-158 | every subtable of a written block reads back |
| EblcRoundTrip.StrikeOf | src/TrueType/Tables/TtfTableEblc.cs:132-161 | a strike whose subtables each read back reads back as a whole |
| EblcRoundTrip.StrikeBound | src/TrueType/Tables/TtfTableEblc.cs:35-57 | each strike's block ends within `GetSize` |
| EblcRoundTrip.WrittenCounts | src/TrueType/Tables/TtfTableEblc.cs:103-110 | the size record written points at its block and counts its subtables |
| EblcRoundTrip.StrikeRoundTrip | src/TrueType/Tables/TtfTableEblc.cs:79-161 | strike i of a written table reads back from its written size record |
| EblcRoundTrip.SizesReadBack | src/TrueType/Tables/TtfTableEblc.cs:130-161 | the strike loop over the written size records reads back every written strike |
| EblcRoundTrip.HeaderReadBack | src/TrueType/Tables/TtfTableEblc.cs:118-126 | the written header reads back as version 2.0 with `numSizes` the strike count |
| EblcRoundTrip.TableRoundTrip | src/TrueType/Tables/TtfTableEblc.cs:60-163 | for a table that fits in 31-bit offsets, parsing its image gives back the written table, detached, whatever follows the image |
| EblcValidate.SectionStartNext | src/TrueType/Tables/TtfTableEblc.cs:398-408 | each EBDT section starts where the previous one ends: after the header and the sizes of the earlier sections |
| EblcValidate.SectionFormat | src/TrueType/Tables/TtfTableEblc.cs:386-394 | the image format is the format of the section's bitmaps |
| EblcValidate.WithEbdt | src/TrueType/Tables/TtfTableEblc.cs:377-414 | a subtable with no section fails with NullReference, one whose section is not in EBDT with InvalidOperation, one whose glyph count differs from the section's bitmap count with IndexOutOfRange; it succeeds exactly when none of these holds |
| EblcValidate.ValidateWithEbdt | src/TrueType/Tables/TtfTableEblc.cs:377-414 | the imperative search over the EBDT sections returns exactly `WithEbdt` |
| EblcValidate.WithEbdtHeader | src/TrueType/Tables/TtfTableEblc.cs:384-413 | a validated header has the body's index format, the section's image format and the section's start as image data offset, and nothing else changes |
| EblcValidate.Add32Cast | src/TrueType/Tables/TtfTableEblc.cs:487 | adding sizes to a `uint` cursor is the 32-bit truncation of their sum |
| EblcValidate.GlyphOffsetsStep | src/TrueType/Tables/TtfTableEblc.cs:481-490 | the offsets start at 0 and each is the previous plus the bitmap's `GetSize`, in 32-bit arithmetic |
| EblcValidate.GlyphOffsetsExact | src/TrueType/Tables/TtfTableEblc.cs:478-491 | when the section is smaller than 2^32 bytes, offset i is the sum of the sizes of the first i bitmaps |
| EblcValidate.Glyphs | src/TrueType/Tables/TtfTableEblc.cs:431-491 | format 1 rebuilds its offsets from the section; the other formats are unchanged |
| EblcValidate.ValidateGlyphs | src/TrueType/Tables/TtfTableEblc.cs:478-491 | the imperative offset loop returns exactly `Glyphs` |
| EblcValidate.CheckedDescribes | src/TrueType/Tables/TtfTableEblc.cs:377-491 | a validated format 1 subtable describes its EBDT section the way the EBDT reader needs |
| EblcValidate.SectionBelow | src/TrueType/Tables/TtfTableEbdt.cs:33-37 | every section ends within the EBDT table's `GetSize` |
| EblcValidate.SByte | src/TrueType/Tables/TtfTableEblc.cs:273-275 | the `(sbyte)` cast keeps values in range and otherwise differs by a multiple of 256 |
| EblcValidate.BigHoriIsSmall | src/TrueType/Tables/TtfTableEblc.cs:270-275 | the corrected big-metrics horizontal sample computes the same as the small-metrics one on the horizontal fields |
| EblcValidate.BigHoriAsWrittenExactly | src/TrueType/Tables/TtfTableEblc.cs:296-299 | the as-written horizontal sample agrees with the corrected one exactly when horiBearingX equals horiBearingY; origin and advance agree always |
| EblcValidate.BigHoriAsWrittenDiffers | src/TrueType/Tables/TtfTableEblc.cs:298-299 | a 5-pixel-high glyph with bearings 0 and 4 gives beforeBL 0 and afterBL -5 as written, against 4 and -1 |
| EblcValidate.SampleOf | src/TrueType/Tables/TtfTableEblc.cs:264-324 | what one bitmap contributes: small metrics only when horizontal metrics are flagged, big metrics their width always and their horizontal and vertical samples as flagged |
| EblcValidate.FoldSnoc | src/TrueType/Tables/TtfTableEblc.cs:259-325 | folding one more sample is one step of the loop |
| EblcValidate.BitmapSamples | src/TrueType/Tables/TtfTableEblc.cs:268-323 | one sample per bitmap, in order |
| EblcValidate.SamplesNext | src/TrueType/Tables/TtfTableEblc.cs:259-325 | the samples of one more subtable follow those of the earlier ones |
| EblcValidate.SamplesMembers | src/TrueType/Tables/TtfTableEblc.cs:259-325 | the samples are exactly those of the bitmaps of the strike's sections |
| EblcValidate.FoldWidth | src/TrueType/Tables/TtfTableEblc.cs:276-290 | `widthMax` bounds every sampled width and is 0 or one of them |
| EblcValidate.MergeKey | src/TrueType/Tables/TtfTableEblc.cs:277-280 | merging a sample keeps the smaller of each minimum and the larger of each maximum |
| EblcValidate.FoldKey | src/TrueType/Tables/TtfTableEblc.cs:277-320 | each folded bound is at most (or at least) every sample's and is attained by one of them, and stays at its start value when nothing was seen |
| EblcValidate.FoldSide | src/TrueType/Tables/TtfTableEblc.cs:244-320 | a side is seen exactly when some sample has it; its bounds then cover every sample and are attained |
| EblcValidate.Lines | src/TrueType/Tables/TtfTableEblc.cs:327-345 | updating a line's metrics changes only `widthMax` and, when the side was gathered, the four extents |
| EblcValidate.CheckedFails | src/TrueType/Tables/TtfTableEblc.cs:330-348 | horizontal metrics flagged with no horizontal sample fail "No horizontal glyphs", likewise vertical, and a strike with no subtables fails "No glyph in a size" |
| EblcValidate.CheckedFields | src/TrueType/Tables/TtfTableEblc.cs:240-354 | a checked strike spans from its first subtable's first glyph to its last subtable's last glyph, both lines carry the maximum width, and each flagged side's extents are the samples' minima and maxima |
| EblcValidate.CheckedAgain | src/TrueType/Tables/TtfTableEblc.cs:240-354 | checking a checked strike again changes nothing |
| EblcValidate.Observe | src/TrueType/Tables/TtfTableEblc.cs:264-323 | one bitmap's imperative update is one fold step |
| EblcValidate.SectionStep | src/TrueType/Tables/TtfTableEblc.cs:268-322 | one more bitmap of a section is one more fold step |
| EblcValidate.ValidateSection | src/TrueType/Tables/TtfTableEblc.cs:268-322 | the loop over one section's bitmaps folds their samples |
| EblcValidate.ValidateData | src/TrueType/Tables/TtfTableEblc.cs:240-354 | the imperative `ValidateData` returns exactly `Checked` |
| EblcValidate.ValidateSize | src/TrueType/Tables/TtfTableEblc.cs:23-32 | one strike's validation returns exactly `CheckedSize` |
| EblcValidate.ValidateSubtable | src/TrueType/Tables/TtfTableEblc.cs:25-29 | one subtable's validation returns exactly `CheckedSubtable` |
| EblcValidate.Validate | src/TrueType/Tables/TtfTableEblc.cs:19-33 | the imperative `Validate` returns exactly `CheckedTable` |
| EblcValidate.ValidateSizes | src/TrueType/Tables/TtfTableEblc.cs:23-32 | the strike loop stops at the first error and otherwise validates every strike in order |
| EblcValidate.SizeTurn | src/TrueType/Tables/TtfTableEblc.cs:23-32 | one turn of the strike loop appends the validated strike, or its error is the whole table's error |
| EblcValidate.SubtableAgain | src/TrueType/Tables/TtfTableEblc.cs:377-491 | validating a validated subtable changes nothing |
| EblcValidate.SizeAgain | src/TrueType/Tables/TtfTableEblc.cs:23-32 | validating a validated strike changes nothing |
| EblcValidate.ValidateAgain | src/TrueType/Tables/TtfTableEblc.cs:19-33 | `Validate` is idempotent |
| EblcValidate.ValidateKeeps | src/TrueType/Tables/TtfTableEblc.cs:19-33 | validation keeps the header and the strike and subtable counts, and each strike and subtable is its checked form |
| EblcValidate.ValidateLocates | src/TrueType/Tables/TtfTableEblc.cs:377-491 | after validation a format 1 subtable's locator describes its EBDT section exactly, so EBDT reads the section back |
| FontTags.AsciiBytes | src/TrueType/TrueTypeFont.cs:41 | one ASCII byte per character of the tag |
| FontTags.PackTagImage | src/TrueType/TrueTypeFont.cs:42-43 | the packed tag, written big-endian, gives back its four bytes |
| FontTags.ToTableTag | src/TrueType/TrueTypeFont.cs:38-44 | a tag of at most four characters packs to the word whose big-endian bytes are its ASCII codes padded with zeros; a longer one fails with Argument |
| FontTags.Tag4IsTableTag | src/TrueType/TrueTypeFont.cs:38-44 | a four-character tag packs as its four bytes |
| FontTags.TagOrder | src/TrueType/TrueTypeFont.cs:159-164 | comparing packed tags as numbers orders them by their bytes, first byte first |
| FontTags.TagInjective | src/TrueType/TrueTypeFont.cs:38-44 | two four-byte tags pack to the same word exactly when they are equal |
| FontTags.TagName | src/TrueType/TrueTypeFont.cs:14-28 | every known table's tag name has four characters |
| FontTags.TagOfName | src/TrueType/TrueTypeFont.cs:14-28 | a known kind's tag is `ToTableTag` of its name |
| FontTags.KindOfKeepsTag | src/TrueType/TrueTypeFont.cs:46-51 | the kind made for an entry keeps the entry's tag, an unknown table included |
| FontTags.KnownTagsDistinct | src/TrueType/TrueTypeFont.cs:10-29 | the thirteen registered tags are distinct, so the registry is a map |
| FontTags.KindOfTagOf | src/TrueType/TrueTypeFont.cs:46-51 | a registered tag creates its own table kind |
| FontTags.DeserializationRanked | src/TrueType/Tables/TtfTableGlyf.cs:10 | every read-time dependency (glyf on loca, loca on head and maxp, hmtx on hhea, EBDT on EBLC) sits strictly lower, so these never form a cycle |
| FontTags.ValidationRanked | src/TrueType/Tables/TtfTableOs2.cs:284-287 | every validation dependency sits strictly lower, so these never form a cycle |
| FontLayout.NewOffsetSubtable | src/TrueType/TrueTypeFont.cs:305-327 | zero tables fail with Argument; otherwise the offset subtable is built for the count |
| FontLayout.HeaderHints | src/TrueType/TrueTypeFont.cs:305-327 | the scaler type is 0x00010000, `entrySelector` is the floor of log2 of the count, and below 4096 tables `searchRange` is 16 times the largest power of two not above the count and `rangeShift` the rest |
| FontLayout.HeaderImage | src/TrueType/TrueTypeFont.cs:297-303 | the offset subtable is 12 bytes |
| FontLayout.HeaderCount | src/TrueType/TrueTypeFont.cs:300 | the table count reads back from bytes 4 and 5 |
| FontLayout.EntryImage | src/TrueType/TrueTypeFont.cs:331-337 | a directory entry is 16 bytes |
| FontLayout.EntryDecodes | src/TrueType/TrueTypeFont.cs:331-337 | a directory entry written and read back is unchanged |
| FontLayout.EntryImageParts | src/TrueType/TrueTypeFont.cs:331-337 | an entry's bytes are its tag, checksum, offset and length, each big-endian |
| FontLayout.OffsetNext | src/TrueType/TrueTypeFont.cs:275-278 | each table starts where the previous one ends, rounded up to 4 bytes |
| FontLayout.OffsetEnds | src/TrueType/TrueTypeFont.cs:234-235 | the first table starts right after the directory and the last one ends at the file size |
| FontLayout.OffsetAligned | src/TrueType/TrueTypeFont.cs:278 | every table starts on a multiple of 4 |
| FontLayout.OffsetWithin | src/TrueType/TrueTypeFont.cs:275-278 | tables do not overlap: each ends, padded, before the next begins |
| FontLayout.GetSize | src/TrueType/TrueTypeFont.cs:202-217 | the file size is the header, 16 bytes per entry and each table rounded up to 4, a multiple of 4 past the directory |
| FontLayout.Stored | src/TrueType/TrueTypeFont.cs:245-254 | what a table leaves in its window is its image, with a head table's adjustment word zeroed |
| FontLayout.RoomShrinks | src/TrueType/TrueTypeFont.cs:238-279 | room for the first i tables includes room for the first i - 1 |
| FontLayout.WrittenNext | src/TrueType/TrueTypeFont.cs:238-279 | i + 1 turns of the loop are i turns and then turn i |
| FontLayout.LastHead | src/TrueType/TrueTypeFont.cs:250-254 | the head whose adjustment is patched is the last head table written |
| FontLayout.AdjustmentInside | src/TrueType/TrueTypeFont.cs:252 | the adjustment word of a head table lies inside its window, after the directory |
| FontLayout.AdjustmentFits | src/TrueType/TrueTypeFont.cs:281-293 | the adjustment word patched at the end lies within the destination |
| FontLayout.Outcome | src/TrueType/TrueTypeFont.cs:219-294 | below 2^31 bytes, serializing succeeds exactly when the tables fit |
| FontLayout.TooSmall | src/TrueType/TrueTypeFont.cs:245 | a table window that runs past the destination fails with ArgumentOutOfRange |
| FontLayout.Serialize | src/TrueType/TrueTypeFont.cs:219-294 | the result is `Outcome`, and on success the destination is the assembled file: header, directory, padded tables and the patched adjustment |
| FontLayout.WriteTables | src/TrueType/TrueTypeFont.cs:238-279 | the table loop either fails with ArgumentOutOfRange, as `Outcome` does, or writes every table and entry and yields where the adjustment goes |
| FontLayout.NextAdjustment | src/TrueType/TrueTypeFont.cs:248-254 | after a head table the adjustment goes 8 bytes into its window; otherwise it stays |
| FontLayout.StoreAdjustment | src/TrueType/TrueTypeFont.cs:281-293 | when there is a head the adjustment word is set so the file sums to 0xB1B0AFBA |
| FontLayout.SerializeTable | src/TrueType/TrueTypeFont.cs:240-278 | one table turn either fails as `Outcome` does or writes turn i and moves the cursor to the next padded offset |
| FontLayout.WriteEntry | src/TrueType/TrueTypeFont.cs:256-273 | the entry records the tag, the sum of the padded window, the offset and the length |
| FontLayout.StoreTable | src/TrueType/TrueTypeFont.cs:245-254 | a table that can serialize itself leaves exactly its stored bytes in its window |
| FontLayout.NotStorable | src/TrueType/TrueTypeFont.cs:246 | a table whose own `Serialize` throws makes the whole file fail with ArgumentOutOfRange |
| FontLayout.PlacedTurn | src/TrueType/TrueTypeFont.cs:275-278 | a table that fits advances the cursor by its padded length |
| FontLayout.EntryTurn | src/TrueType/TrueTypeFont.cs:256-273 | the checksum computed word by word over the window is the sum of its words |
| FontLayout.NextCursor | src/TrueType/TrueTypeFont.cs:275-278 | adding the length and rounding up is adding the padded length |
| Checksums.Words | src/TrueType/TrueTypeFont.cs:62 | the words of a span are its big-endian 32-bit values in order |
| Checksums.WordsSnoc | src/TrueType/TrueTypeFont.cs:67 | one more word extends the list by that word |
| Checksums.OverwriteWord | src/TrueType/TrueTypeFont.cs:252-253 | overwriting one aligned word changes only that word of the sum |
| Checksums.PartialSumIsWordSum | src/TrueType/TrueTypeFont.cs:259-263 | the unchecked `uint` sum of the first n words is their sum modulo 2^32 |
| Checksums.PartialSumWhole | src/TrueType/TrueTypeFont.cs:259-263 | summing all whole words gives the checksum |
| Checksums.SumWords | src/TrueType/TrueTypeFont.cs:259-263 | the imperative checksum loop returns the sum of the words modulo 2^32 |
| Checksums.CheckedSizeCases | src/TrueType/TrueTypeFont.cs:56-60 | the checked size is the length rounded up to 4 for lengths up to 0x7FFFFFFC, negative just above, and 0 at the top, following the `int` wrap |
| Checksums.HeadCancellation | src/TrueType/TrueTypeFont.cs:63-67 | for a head table the recomputed sum is the sum with the adjustment word taken as 0 |
| Checksums.HeadAdjustmentIgnored | src/TrueType/TrueTypeFont.cs:63-67 | a head table's recomputed sum does not depend on its adjustment word |
| Checksums.ValidateChecksum | src/TrueType/TrueTypeFont.cs:53-73 | a checksum accepted means the window lies in the file and the entry's checksum is the recomputed sum; failures are ArgumentOutOfRange, IndexOutOfRange or Argument |
| Checksums.ValidateAccepts | src/TrueType/TrueTypeFont.cs:53-73 | for an entry inside the file, validation succeeds exactly when the stored checksum equals the recomputed one |
| Dependencies.FirstOfKind | src/TrueType/TrueTypeFont.cs:131-134 | the search stops at the first table of the wanted kind, or past the end when there is none |
| Dependencies.FindDependency | src/TrueType/TrueTypeFont.cs:183-186 | the imperative search returns exactly `FirstOfKind` |
| Dependencies.FalsesShrink | src/TrueType/TrueTypeFont.cs:115-116 | marking a table shrinks the number of unmarked tables, which bounds the recursion |
| Dependencies.WalkedMark | src/TrueType/TrueTypeFont.cs:123-125 | marking a table as in progress pushes it on the path and keeps the walk invariant |
| Dependencies.WalkedFinish | src/TrueType/TrueTypeFont.cs:142-143 | finishing a table whose dependencies are done appends it to the order and keeps the invariant |
| Dependencies.DepsDoneStep | src/TrueType/TrueTypeFont.cs:129-140 | after visiting dependency q its table is done, and done tables stay done |
| Dependencies.CycleFound | src/TrueType/TrueTypeFont.cs:123-124 | reaching a table that is in progress means the dependencies have a cycle |
| Dependencies.Visit | src/TrueType/TrueTypeFont.cs:120-144 | the recursive visit either finishes the table after all its dependencies, keeping the order valid, or fails with a genuine cycle or a missing dependency |
| Dependencies.Resolve | src/TrueType/TrueTypeFont.cs:115-147 | on success every table is processed once, each after the tables it depends on; on failure there is a cycle or a missing dependency |
| Dependencies.PathDescends | src/TrueType/TrueTypeFont.cs:120-144 | along a dependency path the rank strictly falls |
| Dependencies.RankedAcyclic | src/TrueType/TrueTypeFont.cs:123-124 | dependencies that always point to a lower rank have no cycle, so the cycle error cannot be raised |
| FontFile.EntryReads | src/TrueType/TrueTypeFont.cs:103-113 | entry i is read at 12 + 16 * i |
| FontFile.Entries | src/TrueType/TrueTypeFont.cs:103-113 | the directory loop yields one entry per turn |
| FontFile.DirectoryMeans | src/TrueType/TrueTypeFont.cs:93-113 | the directory reads exactly when the file holds the header and `numTables` entries, each with a valid checksum, and then it is those entries |
| FontFile.ReadEntryAt | src/TrueType/TrueTypeFont.cs:105-109 | one imperative turn returns exactly `EntryAt` |
| FontFile.ReadDirectory | src/TrueType/TrueTypeFont.cs:93-113 | the imperative directory read returns exactly `Directory` |
| FontFile.ReadEntries | src/TrueType/TrueTypeFont.cs:103-113 | the imperative entry loop returns exactly `Entries` |
| FontFile.CheckedBytes | src/TrueType/TrueTypeFont.cs:79-82 | after the checksum passed, the table's bytes are the window of its length, except for lengths that wrap to a negative `int` |
| FontFile.SliceFits | src/TrueType/TrueTypeFont.cs:55-82 | the unpadded slice fits when the padded one did, except for the lengths the `int` cast turns negative |
| FontFile.LoadNodes | src/TrueType/TrueTypeFont.cs:110-112 | one table per directory entry, in directory order |
| FontFile.Deserialize | src/TrueType/TrueTypeFont.cs:89-155 | a bad directory is its error; otherwise the tables are read in a dependency order, each from its own bytes, and the result lists them in the order they were read |
| FontFile.LoadedBytes | src/TrueType/TrueTypeFont.cs:79-85 | each table read is given exactly the bytes of its window |
| FontFile.LoadAcyclic | src/TrueType/TrueTypeFont.cs:118-147 | the read-time dependencies of a file's tables never form a cycle |
| FontFile.FileDirectory | src/TrueType/TrueTypeFont.cs:89-113 | an assembled file's directory reads back with the tables' tags, offsets and lengths |
| FontFile.FileEntryAt | src/TrueType/TrueTypeFont.cs:105-109 | entry i of an assembled file reads back and passes its checksum |
| FontFile.EntryBytes | src/TrueType/TrueTypeFont.cs:79-82 | an entry in range gives the window from its offset for its length |
| FontFile.FileTableBytes | src/TrueType/TrueTypeFont.cs:79-85 | reading an assembled file gives every table its own image back, a head table with its adjustment word as stored |
| FontFile.CheckNodes | src/TrueType/TrueTypeFont.cs:166-199 | one validation node per table, in table order |
| FontFile.Images | src/TrueType/TrueTypeFont.cs:238-246 | the image of each table, in table order |
| FontFile.CheckAcyclic | src/TrueType/TrueTypeFont.cs:173-199 | the validation dependencies of a font's tables never form a cycle |
| FontFile.Failure | src/TrueType/TrueTypeFont.cs:194 | a table's validation step fails exactly when its own `Validate` throws, with that error |
| FontFile.Settled | src/TrueType/TrueTypeFont.cs:194 | each table after its own `Validate`: it writes its validated bytes when that succeeded |
| FontFile.SettledKeeps | src/TrueType/TrueTypeFont.cs:166-199 | after a walk that processed every table, each table writes the bytes its own `Validate` gave it, and the tags, the sort order and the validation nodes are unchanged |
| FontFile.TrueTypeFont.constructor | src/TrueType/TrueTypeFont.cs:151-154 | a font holds the tables it is given |
| FontFile.TrueTypeFont.Validate | src/TrueType/TrueTypeFont.cs:157-200 | validation sorts the tables by tag, a permutation, and then processes every table after its dependencies, after which each table writes the bytes its own `Validate` left it with; or it fails with a cycle, a missing dependency or a table's own error |
| FontFile.TrueTypeFont.GetSize | src/TrueType/TrueTypeFont.cs:194-217 | validation runs unless skipped; the size is the header, the directory and the padded tables, each table sized as validation left it |
| FontFile.TrueTypeFont.Serialize | src/TrueType/TrueTypeFont.cs:194-294 | validation runs unless skipped; on success the destination is the assembled file of the tables as validation left them; on failure the error is validation's, with the destination untouched, or the layout's |
| FontImage.OffsetMono | src/TrueType/TrueTypeFont.cs:275-278 | table offsets never decrease and never fall inside the directory |
| FontImage.TurnOutside | src/TrueType/TrueTypeFont.cs:240-273 | turn i touches only table i's window and entry i |
| FontImage.KeptAfter | src/TrueType/TrueTypeFont.cs:238-279 | later turns do not touch what earlier tables wrote |
| FontImage.KeptBefore | src/TrueType/TrueTypeFont.cs:238-279 | later turns do not touch the earlier directory entries |
| FontImage.HeaderLaid | src/TrueType/TrueTypeFont.cs:228-230 | after the loop the file starts with the offset subtable for the table count |
| FontImage.Laid | src/TrueType/TrueTypeFont.cs:238-279 | after the loop every table and its entry are in place |
| FontImage.TurnWindow | src/TrueType/TrueTypeFont.cs:245-254 | turn i leaves table i's stored bytes in its window |
| FontImage.TurnEntry | src/TrueType/TrueTypeFont.cs:265-273 | turn i writes entry i from the window just written |
| FontImage.EntryOfSum | src/TrueType/TrueTypeFont.cs:256-271 | entry i carries the tag, the window's word sum, the offset and the unpadded length |
| FontImage.AdjustmentPlace | src/TrueType/TrueTypeFont.cs:250-254 | the adjustment goes 8 bytes into the last head table, an aligned word inside its window |
| FontImage.AssembledFinished | src/TrueType/TrueTypeFont.cs:281-293 | the assembled file is the loop's result with the adjustment patched |
| FontImage.FinishedOutside | src/TrueType/TrueTypeFont.cs:281-293 | patching the adjustment changes nothing outside that word |
| FontImage.HeadWindowSum | src/TrueType/TrueTypeFont.cs:63-67 | a head window's recomputed sum ignores its adjustment word and equals the sum written with that word zeroed |
| FontImage.FinishedHeader | src/TrueType/TrueTypeFont.cs:228-230 | the patched file still starts with the offset subtable |
| FontImage.EntryKept | src/TrueType/TrueTypeFont.cs:281-293 | patching leaves every directory entry alone |
| FontImage.AdjustedWindow | src/TrueType/TrueTypeFont.cs:281-293 | the last head's window becomes its written bytes with the adjustment word set |
| FontImage.WindowChecked | src/TrueType/TrueTypeFont.cs:53-73 | every window of the patched file recomputes to the checksum written in its entry |
| FontImage.FinishedEntry | src/TrueType/TrueTypeFont.cs:53-73 | every entry of the patched file reads back with its table's tag, offset and length and passes the reader's checksum check |
| FontImage.AdjustedSum | src/TrueType/TrueTypeFont.cs:289 | adding 0xB1B0AFBA minus the sum brings the sum to 0xB1B0AFBA modulo 2^32 |
| FontImage.AdjustedWordSum | src/TrueType/TrueTypeFont.cs:281-293 | setting a zero word to the adjustment makes the whole file sum to 0xB1B0AFBA |
| FontImage.FinishedSum | src/TrueType/TrueTypeFont.cs:281-293 | a file with a head table sums to 0xB1B0AFBA |
| FontImage.PlainTable | src/TrueType/TrueTypeFont.cs:245-246 | a table other than head lies unchanged in the file |
| FontImage.HeadTable | src/TrueType/TrueTypeFont.cs:245-254 | a head table lies in the file unchanged except for its adjustment word |
| FontImage.FileHeader | src/TrueType/TrueTypeFont.cs:228-230 | the assembled file starts with the offset subtable and its count reads back |
| FontImage.FileEntry | src/TrueType/TrueTypeFont.cs:53-73 | every entry of an assembled file passes the reader's checksum check |
| FontImage.WholeFileSum | src/TrueType/TrueTypeFont.cs:281-293 | an assembled file with a head table sums to 0xB1B0AFBA |
| FontImage.FileTable | src/TrueType/TrueTypeFont.cs:219-294 | every table lies in the assembled file at its offset, unchanged except for a head table's adjustment word |
| Builder.RegisterMeans | src/Builder/TrueTypeFontBuilder.cs:89-115 | a registration succeeds exactly when it sets a still-unset glyph 0, or adds an admissible code not yet registered; it never changes or drops an earlier registration, and a refused one changes nothing |
| Builder.RegisterKeepsWellFormed | src/Builder/TrueTypeFontBuilder.cs:89-115 | every registration keeps the dictionary's codes distinct and admissible |
| Builder.TrueTypeFontBuilder.TryAddGlyph | src/Builder/TrueTypeFontBuilder.cs:89-115 | the builder's glyph 0 and dictionary become the registration's result and its answer is the registration's; the settings and names stay |
| Builder.TrueTypeFontBuilder.TryAdd | src/Builder/TrueTypeFontBuilder.cs:113 | the entry is appended exactly when its code is absent; nothing else changes |
| Builder.DefaultsMeans | src/Builder/TrueTypeFontBuilder.cs:119-122 | after the defaults glyph 0 is set (the registered one kept), the space is mapped, no registration is lost, the dictionary stays well formed, and applying the defaults again changes nothing |
| Builder.TrueTypeFontBuilder.AddDefaults | src/Builder/TrueTypeFontBuilder.cs:119-122 | the builder's registry becomes the defaulted registry, with glyph 0 set |
| Builder.GlyphOrder | src/Builder/TrueTypeFontBuilder.cs:449-452 | glyph 0, the null glyph and one glyph per sorted registration: two more glyphs than registrations |
| Builder.SortedRegistrations | src/Builder/TrueTypeFontBuilder.cs:124 | sorting the dictionary by code keeps every registration (the same multiset) and leaves the codes strictly ascending |
| Builder.TrueTypeFontBuilder.Build | src/Builder/TrueTypeFontBuilder.cs:117-150 | the defaults stay in the builder, the sorted list is the dictionary sorted by code, and the result is the font computed for glyph 0 and the sorted list, or the conversion's error |
| Builder.BuildTables | src/Builder/TrueTypeFontBuilder.cs:126-149 | the tables computed in `Build` are the font the specification function gives, including its error |
| Builder.FontParts | src/Builder/TrueTypeFontBuilder.cs:126-149 | a built font lists its tables in `Build`'s order and holds the cmap of the sorted codes, the outline tables of the glyph order and the bitmap tables of the glyph order |
| Builder.OrderTables | src/Builder/TrueTypeFontBuilder.cs:429-455 | the outline tables of the glyph order have one entry and one metric per glyph; glyph 0 and each sorted glyph k appear at 0 and k + 2, and glyph 1 is null with no advance |
| Builder.BuiltGlyphs | src/Builder/TrueTypeFontBuilder.cs:117-150 | in a built font `glyf` and `hmtx` agree glyph for glyph (so `hmtx` validates against the glyph count) and the sorted glyph k is glyph k + 2 |
| Builder.BuiltMaps | src/Builder/TrueTypeFontBuilder.cs:117-150 | in a built font the cmap is valid, has a segment covering every sorted code k that gives glyph k + 2 and one covering each of the four forced control codes that gives glyph 1 (a code that is both, such as 0x0D registered without contours, is covered by both), and, for at most 65536 glyphs, every EBLC index subtable counts its EBDT section |
| Builder.BuildWithoutScale | src/Builder/TrueTypeFontBuilder.cs:466-473 | with a point scale of 0 the build fails with DivideByZero |
| Builder.Sanitized | src/Builder/TrueTypeFontBuilder.cs:251-255 | the PostScript name has the family name's length |
| Builder.SanitizedMeans | src/Builder/TrueTypeFontBuilder.cs:231-257 | every character of the PostScript name is printable ASCII outside the ten delimiters, a character is kept exactly when it is allowed, and sanitising twice changes nothing |
| Builder.PostScriptName | src/Builder/TrueTypeFontBuilder.cs:249-257 | the in-place loop over the character array leaves the sanitised family name |
| Builder.CreateCheck | src/Builder/TrueTypeFontBuilder.cs:28-29 | an empty family or subfamily name, and only that, throws NullReference |
| Builder.TrueTypeFontBuilder.constructor | src/Builder/TrueTypeFontBuilder.cs:26-34 | a builder with the given names and units per em, no glyphs and every other property at its default |
| Builder.Create | src/Builder/TrueTypeFontBuilder.cs:26-34 | construction fails with NullReference exactly when a name is empty, and otherwise gives a fresh builder with no glyphs |
| BuilderGlyphs.EmptyGlyph | src/Builder/EmptyGlyph.cs:9-12 | the parameterless empty glyph is full monospace, has no contours and gives the empty 0×0 bitmap |
| BuilderGlyphs.EmptyGlyphOf | src/Builder/EmptyGlyph.cs:14-18 | the sized empty glyph has a manual width of its argument at offset 0, no contours and the empty bitmap |
| BuilderGlyphs.LeastXMeans | src/Builder/TrueTypeFontBuilder.cs:610-615 | the trim loop's `xmin` is at most every point's x and, when there is a point, is one of them |
| BuilderGlyphs.GreatestXMeans | src/Builder/TrueTypeFontBuilder.cs:610-615 | the trim loop's `xmax` is at least every point's x and, when there is a point, is one of them |
| BuilderGlyphs.TrimmedSize | src/Builder/TrueTypeFontBuilder.cs:606-619 | a trimmed glyph with a point starts at its leftmost x, and its width is the span to its rightmost x plus the padding, capped at the metric width |
| BuilderGlyphs.TrimmedNoPoints | src/Builder/TrueTypeFontBuilder.cs:606-619 | contours without points leave `xmin` at 65535 and `xmax` at 0, so the cast width is the padding plus one |
| BuilderGlyphs.ContourExtent | src/Builder/TrueTypeFontBuilder.cs:611-615 | the inner loop extends the extremes by one contour's points |
| BuilderGlyphs.XExtent | src/Builder/TrueTypeFontBuilder.cs:608-615 | the loop gives the least and greatest x over all points of all contours |
| BuilderGlyphs.GetGlyphSize | src/Builder/TrueTypeFontBuilder.cs:589-630 | the method computes the glyph size the width-mode specification gives |
| BuilderOutlines.Short | src/Builder/TrueTypeFontBuilder.cs:771-774 | the `(short)` cast leaves every value already in range unchanged |
| BuilderOutlines.ShortAdd | src/Builder/TrueTypeFontBuilder.cs:773-774 | casting a sum to `short` depends only on the low 16 bits of its first term |
| BuilderOutlines.WalkPoints | src/Builder/TrueTypeFontBuilder.cs:769-798 | the pen emits one on-curve point per input point and ends with its cursor on the last shifted point |
| BuilderOutlines.ChainDecodes | src/Builder/TrueTypeFontBuilder.cs:773-776 | when every shifted coordinate fits in 16 bits, the running 16-bit sum of the deltas gives back each coordinate |
| BuilderOutlines.WalkDecodes | src/Builder/TrueTypeFontBuilder.cs:769-798 | summing the emitted x and y deltas, cut to 16 bits, gives back every shifted point |
| BuilderOutlines.LowestMeans | src/Builder/TrueTypeFontBuilder.cs:778-779 | a running minimum is at most its start and every value, and is its start or one of the values |
| BuilderOutlines.HighestMeans | src/Builder/TrueTypeFontBuilder.cs:780-781 | a running maximum is at least its start and every value, and is its start or one of the values |
| BuilderOutlines.WalkBox | src/Builder/TrueTypeFontBuilder.cs:759-781 | the pen's box bounds every shifted point, its maxima are at least 0, and its minima are attained when there is a point |
| BuilderOutlines.EndsCount | src/Builder/TrueTypeFontBuilder.cs:801 | each contour's end index counts the points up to it, minus one (65535 when none), so the last end gives the point count |
| BuilderOutlines.OutlineMeans | src/Builder/TrueTypeFontBuilder.cs:739-808 | a glyph with contours becomes a simple entry of on-curve points whose deltas decode to its shifted points, whose box bounds them with its minimum attained, whose contour ends count its points, and whose left side bearing is the box's `xMin` |
| BuilderOutlines.OutlineEmpty | src/Builder/TrueTypeFontBuilder.cs:742-750 | a glyph without contours has no entry, a left side bearing of 0 and its glyph-size width |
| BuilderOutlines.AddPoint | src/Builder/TrueTypeFontBuilder.cs:771-797 | one turn of the point loop is one step of the pen |
| BuilderOutlines.AddContour | src/Builder/TrueTypeFontBuilder.cs:769-798 | the point loop over one contour walks the pen over its points and advances the point index by their count |
| BuilderOutlines.AddContours | src/Builder/TrueTypeFontBuilder.cs:767-802 | the contour loop walks the pen over all points and records each contour's end index |
| BuilderOutlines.ToTrueTypeGlyph | src/Builder/TrueTypeFontBuilder.cs:739-808 | the method's entry, width and left side bearing are the glyph's outline |
| BuilderOutlines.EntriesAt | src/Builder/TrueTypeFontBuilder.cs:437-452 | entry i and metric i come from glyph i's outline |
| BuilderOutlines.GlyfAndHmtxAgree | src/Builder/TrueTypeFontBuilder.cs:429-455 | `hmtx` has one long metric per `glyf` entry and validates against that count; each advance is the glyph's width, an entry is null exactly for a glyph without contours, and each left side bearing is the entry's `xMin` (0 for a null entry) |
| BuilderOutlines.BuildGlyfAndHmtx | src/Builder/TrueTypeFontBuilder.cs:429-455 | the two lists filled glyph by glyph are the outline tables of the glyph order |
| BuilderCmap.Registered | src/Builder/TrueTypeFontBuilder.cs:321 | the registered codes from position k on, the code at sorted position i mapped to glyph i + 2 |
| BuilderCmap.Forced | src/Builder/TrueTypeFontBuilder.cs:326 | each forced code mapped to glyph 1, in order |
| BuilderCmap.MergeFromPermutes | src/Builder/TrueTypeFontBuilder.cs:315-335 | the merge holds exactly the registered mappings and the forced ones, as multisets |
| BuilderCmap.MergeFromSorted | src/Builder/TrueTypeFontBuilder.cs:315-335 | merging ascending registered codes with ascending forced codes gives a list sorted by code |
| BuilderCmap.MergeFromTies | src/Builder/TrueTypeFontBuilder.cs:318-319 | where a registered code equals a forced one, the forced mapping to glyph 1 comes first |
| BuilderCmap.MergedMeans | src/Builder/TrueTypeFontBuilder.cs:309-338 | `glyphIndexMap` has one element per registered code and four more, so the length check never throws; it is a permutation of the registered and forced mappings, sorted by code, forced first on a tie |
| BuilderCmap.MergedHolds | src/Builder/TrueTypeFontBuilder.cs:309-338 | every registered code k and every forced code is in `glyphIndexMap` with its glyph |
| BuilderCmap.PlaceBelow | src/Builder/TrueTypeFontBuilder.cs:318-324 | the inner loop places the registered codes below the next forced code, in merge order, and stops at the first code not below it |
| BuilderCmap.MergeCodes | src/Builder/TrueTypeFontBuilder.cs:309-338 | the merge loops fill the array with the merged list |
| BuilderCmap.DeltaMaps | src/Builder/TrueTypeFontBuilder.cs:355-364 | a mapping that keeps the run's code-to-glyph difference is mapped to its glyph by the segment's 16-bit idDelta |
| BuilderCmap.RunsCover | src/Builder/TrueTypeFontBuilder.cs:351-388 | the segments closed from an open run on cover every later mapping of a sorted list with its glyph |
| BuilderCmap.SegmentsCover | src/Builder/TrueTypeFontBuilder.cs:342-397 | cutting a sorted list into segments loses no mapping: each lies in a segment before the end segment, whose idDelta maps its code to its glyph, and the list ends with the 0xFFFF segment |
| BuilderCmap.SegmentsCoverAll | src/Builder/TrueTypeFontBuilder.cs:342-397 | every mapping of a sorted list is covered by one of its segments |
| BuilderCmap.SegmentTurn | src/Builder/TrueTypeFontBuilder.cs:353-375 | one turn of the segment loop either extends the open run or closes it and opens a new one, keeping the segments so far a prefix of the result |
| BuilderCmap.BuildSegments | src/Builder/TrueTypeFontBuilder.cs:342-397 | the segment loop gives the segments of `glyphIndexMap` followed by the end segment |
| BuilderCmap.FilledAt | src/Builder/TrueTypeFontBuilder.cs:408-417 | a code up to 255 that the format-0 loop reaches holds the value written for its sorted position, whatever comes after it |
| BuilderCmap.FilledElse | src/Builder/TrueTypeFontBuilder.cs:408-417 | a cell whose code is not registered keeps its value |
| BuilderCmap.FormatZeroAsWrittenDisagrees | src/Builder/TrueTypeFontBuilder.cs:414-415 | with only the space registered, format 4 maps it to glyph 2 while the format-0 array as written maps it to glyph 0 |
| BuilderCmap.FirstCodeDisagrees | src/Builder/TrueTypeFontBuilder.cs:408-417 | the lowest registered code, when it fits a byte, gets glyph 2 in format 4 but 0 in the format-0 array as written |
| BuilderCmap.IndexArrayAgrees | src/Builder/TrueTypeFontBuilder.cs:408-417 | the corrected format-0 array maps each registered code up to 255 to its format-4 glyph (while that fits a byte) and every other code to glyph 0 |
| BuilderCmap.IndexArrayAsWrittenMeans | src/Builder/TrueTypeFontBuilder.cs:408-417 | the format-0 array as written holds, for each registered code up to 255, its sorted position modulo 256, and 0 for every other code |
| BuilderCmap.FillIndexArray | src/Builder/TrueTypeFontBuilder.cs:408-417 | the loop over the sorted codes writes the array the specification function gives and stops at the first code above 255 |
| BuilderCmap.BuildCmap | src/Builder/TrueTypeFontBuilder.cs:296-427 | the built table is the cmap of the registered codes: (0,3) and (3,1) share the format-4 subtable, (1,0) has the format-0 array as the code fills it |
| BuilderCmap.CmapMaps | src/Builder/TrueTypeFontBuilder.cs:296-427 | the built cmap is valid, its two Unicode records share one subtable, and its segments end with the 0xFFFF segment and cover every registered code k with a segment giving glyph k + 2 and every forced code with one giving glyph 1 (a code that is both, such as 0x0D registered without contours, is covered by both), while its format-0 array holds each byte-sized code's sorted position k and 0 for every other code |
| BuilderBitmaps.RowBounds | src/Builder/TrueTypeFontBuilder.cs:670-684 | scanning one row only grows the box, takes in every set cell it reads, and leaves the box alone when it reads none |
| BuilderBitmaps.RowsBounds | src/Builder/TrueTypeFontBuilder.cs:664-685 | scanning the rows only grows the box, takes in every set cell it reads, and leaves the box alone when it reads none |
| BuilderBitmaps.RowOk | src/Builder/TrueTypeFontBuilder.cs:670-684 | on a well-sized sheet the corrected scan of a row on the sheet never reads outside the buffer, and each side of the box stays on the sheet |
| BuilderBitmaps.RowsOk | src/Builder/TrueTypeFontBuilder.cs:664-685 | on a well-sized sheet, with the cell at or right of and below its corner, the corrected scan never reads outside the buffer |
| BuilderBitmaps.TrimAsWrittenReadsNextRow | src/Builder/TrueTypeFontBuilder.cs:673 | a column one past the sheet's right edge is read as written from the start of the next row, giving the glyph a pixel not in its row; the corrected scan skips it |
| BuilderBitmaps.TrimAsWrittenThrowsBelow | src/Builder/TrueTypeFontBuilder.cs:667 | a cell reaching one row past the sheet's bottom throws IndexOutOfRange as written; the corrected scan skips the row |
| BuilderBitmaps.RowAgrees | src/Builder/TrueTypeFontBuilder.cs:670-684 | on a window that lies on its sheet the row scan as written and the corrected one give the same result |
| BuilderBitmaps.RowsAgree | src/Builder/TrueTypeFontBuilder.cs:664-685 | on a window that lies on its sheet the scan as written and the corrected one give the same result and find the same set cells |
| BuilderBitmaps.ScanRowLoop | src/Builder/TrueTypeFontBuilder.cs:670-684 | the column loop gives the row scan the specification function gives, error included |
| BuilderBitmaps.TrimScan | src/Builder/TrueTypeFontBuilder.cs:664-685 | the row loop gives the scan the specification function gives, error included |
| BuilderBitmaps.CopyRow | src/Builder/TrueTypeFontBuilder.cs:714-719 | one row of the copy fills the flipped row of the cut-out array, or reports that a cell of the box lies outside the buffer; other rows stay |
| BuilderBitmaps.CopyTrimmed | src/Builder/TrueTypeFontBuilder.cs:706-720 | the copy loops give the cut-out, flipped grid of the box, or IndexOutOfRange |
| BuilderBitmaps.TrimKeepsHits | src/Builder/TrueTypeFontBuilder.cs:706-720 | every set cell the scan (as written or corrected) found lands inside the cut-out grid at its column from the box's left and its row counted from the box's bottom |
| BuilderBitmaps.TrimSucceeds | src/Builder/TrueTypeFontBuilder.cs:659-720 | a cell with a set pixel on a well-sized sheet, placed at or right of and below its corner, scans and cuts without error to a non-empty box |
| BuilderBitmaps.TryGetTrueTypeBitmap | src/Builder/TrueTypeFontBuilder.cs:632-737 | the method gives the bitmap conversion the specification function gives, with the scan's comparison as written: none without a bitmap, Argument for a badly sized sheet, DivideByZero for a point scale of 0, the placeholder for an empty cell, else the cut-out bitmap with its small metrics |
| BuilderBitmaps.BitmapKeepsPixels | src/Builder/TrueTypeFontBuilder.cs:632-737 | a glyph whose cell lies on its sheet and whose window holds a set pixel converts without error to a format-2 bitmap with the trimmed metrics that holds every set pixel at its flipped place |
| BuilderBitmaps.BlankCellPlaceholder | src/Builder/TrueTypeFontBuilder.cs:687-704 | a window with no set pixel gives the 1×1 placeholder with the glyph's advance, unless the cell is exactly 1×1 |
| BuilderBitmaps.EmptyGlyphPlaceholder | src/Builder/TrueTypeFontBuilder.cs:687-704 | both kinds of empty glyph give the placeholder with their advance |
| BuilderBitmaps.RunStays | src/Builder/TrueTypeFontBuilder.cs:517-547 | a run of the glyphs so far stays a run when another glyph follows |
| BuilderBitmaps.RunJoins | src/Builder/TrueTypeFontBuilder.cs:543 | a bitmap right after a run extends that run |
| BuilderBitmaps.AddExact | src/Builder/TrueTypeFontBuilder.cs:517-547 | processing one more glyph keeps every run a stretch of consecutive glyphs with bitmaps and keeps the runs apart and in order |
| BuilderBitmaps.AddCovered | src/Builder/TrueTypeFontBuilder.cs:517-547 | processing one more glyph keeps every glyph with a bitmap inside a run |
| BuilderBitmaps.GroupMeans | src/Builder/TrueTypeFontBuilder.cs:514-569 | the sections are exactly the maximal stretches of consecutive glyphs with bitmaps: each non-empty with its glyphs' bitmaps in order, apart and in order, and none left out |
| BuilderBitmaps.Subtables | src/Builder/TrueTypeFontBuilder.cs:537-540 | one format-1 index subtable per run, naming its first and last glyph and pointing at its section |
| BuilderBitmaps.SectionsOf | src/Builder/TrueTypeFontBuilder.cs:533 | one EBDT section per run, holding the run's bitmaps |
| BuilderBitmaps.BitmapReads | src/Builder/TrueTypeFontBuilder.cs:520 | turn i of the glyph loop converts glyph i |
| BuilderBitmaps.ProcessTracks | src/Builder/TrueTypeFontBuilder.cs:517-547 | after `ProcessGlyphOrdered` the closed sections and the open one are the runs of the glyphs so far, and `prevIndex` is the open run's last glyph |
| BuilderBitmaps.BuildEblcAndEbdt | src/Builder/TrueTypeFontBuilder.cs:457-573 | the method gives the tables of the runs of the converted glyphs, with the size added only when a section exists, or the first conversion's error |
| BuilderBitmaps.LookupOf | src/Builder/TrueTypeFontBuilder.cs:528 | a run below glyph 65536 keeps its first and last index through the casts, so its subtable counts its bitmaps |
| BuilderBitmaps.TablesCounted | src/Builder/TrueTypeFontBuilder.cs:556-569 | for at most 65536 glyphs every index subtable's glyph count equals its section's length and points at it, and the size exists exactly when a section does |
| BuilderBitmaps.SubtablesCount | src/Builder/TrueTypeFontBuilder.cs:457-573 | a successful build over at most 65536 glyphs gives EBLC and EBDT tables whose subtables count their sections |
| Os2.V0Inverse | src/TrueType/Tables/TtfTableOs2.cs:508-559 | the seven field groups of the version-0 record, read back, give the record: the field split loses nothing |
| Os2.AppendicesInverse | src/TrueType/Tables/TtfTableOs2.cs:561-584 | the version-1, -2 and -5 appendices' field lists give the appendices back |
| Os2.New | src/TrueType/Tables/TtfTableOs2.cs:261-280 | a new table is version 1 with weight class 400 and width class 5, every other field 0, and its size is 86 bytes |
| Os2.V0Image | src/TrueType/Tables/TtfTableOs2.cs:508-559 | the version-0 record's image is 78 bytes |
| Os2.V1Image | src/TrueType/Tables/TtfTableOs2.cs:561-566 | the version-1 appendix's image is 8 bytes |
| Os2.V2Image | src/TrueType/Tables/TtfTableOs2.cs:568-577 | the version-2 appendix's image is 10 bytes |
| Os2.V5Image | src/TrueType/Tables/TtfTableOs2.cs:579-584 | the version-5 appendix's image is 4 bytes |
| Os2.Serialize | src/TrueType/Tables/TtfTableOs2.cs:447-471 | a destination of any other length than the size fails with Argument; otherwise the image has that length, holds the version-0 record first and each appendix the version enables at its offset |
| Os2.AppendixParts | src/TrueType/Tables/TtfTableOs2.cs:451-470 | after the 78 bytes of the version-0 record the appendices the version enables lie at 78, 86 and 96, and the image has the table's size |
| Os2.ReadV0 | src/TrueType/Tables/TtfTableOs2.cs:475 | reading the version-0 record fails only with IndexOutOfRange, and does fail when fewer than 78 bytes remain |
| Os2.ReadAt | src/TrueType/Tables/TtfTableOs2.cs:473-482 | a record's image at the cursor reads back as the record and moves the cursor past it |
| Os2.V0RoundTrip | src/TrueType/Tables/TtfTableOs2.cs:475 | the version-0 record's image reads back as the record and leaves the cursor after 78 bytes |
| Os2.RoundTrip | src/TrueType/Tables/TtfTableOs2.cs:438-482 | serialising into a destination of the table's size succeeds, and parsing the bytes back into any object restores the version-0 record and every appendix the version enables, keeps the object's other appendices and consumes the whole image |
| Os2.ReloadFrom | src/TrueType/Tables/TtfTableOs2.cs:477-481 | an image with each enabled appendix where serialisation puts it reads back the enabled appendices and keeps the rest |
| Os2.DeserializeShort | src/TrueType/Tables/TtfTableOs2.cs:473-482 | a window shorter than 78 bytes fails with IndexOutOfRange |
| Os2.FirstCharIsMinimum | src/TrueType/Tables/TtfTableOs2.cs:335-345 | the first character is at most every segment's start code, and is one of them or 0xFFFF |
| Os2.LastCharIsMaximum | src/TrueType/Tables/TtfTableOs2.cs:335-345 | the last character is at least the capped end of every non-empty segment, is one of them or 0, and never exceeds 0xFFFD |
| Os2.CharRange | src/TrueType/Tables/TtfTableOs2.cs:335-365 | the segment loop leaves the first and last character the specification functions give |
| Os2.OrBit | src/TrueType/Tables/TtfTableOs2.cs:353-356 | setting bit i of a word makes bit j set exactly when it was set or j is i |
| Os2.RangeBitPlacement | src/TrueType/Tables/TtfTableOs2.cs:353-357 | placing a range bit fails exactly for a bit of 128 or more; otherwise each bit of the four range words is set exactly when it was set or is the word bit the range bit names (most significant first) |
| Os2.WordPlacement | src/TrueType/Tables/TtfTableOs2.cs:353-356 | a bit of any range word after placing a range bit below 128 is set exactly when it was or is the named bit |
| Os2.WordAfter | src/TrueType/Tables/TtfTableOs2.cs:353-356 | placing range bit b ORs bit 31 - b mod 32 into word b / 32 and leaves the other words |
| Os2.RangeBitsPlacement | src/TrueType/Tables/TtfTableOs2.cs:330-362 | placing a list of range bits succeeds exactly when every bit is below 128, and then sets exactly the named bits on top of the start words |
| Os2.RangeBits | src/TrueType/Tables/TtfTableOs2.cs:330-362 | the loop over the selected bits gives the range words of the specification function, or its error |
| Os2.EarlyError | src/TrueType/Tables/TtfTableOs2.cs:357 | a bit of 128 or more ends the placement with IndexOutOfRange, whatever follows |
| Os2.PagePlacement | src/TrueType/Tables/TtfTableOs2.cs:428-433 | a matched code page below 32 sets that bit of the first word, one from 32 to 63 the matching bit of the second, and nothing else changes |
| Os2.CodePagesPlacement | src/TrueType/Tables/TtfTableOs2.cs:388-434 | after all matched code pages, a bit of either word is set exactly when it was set or its position is a matched page |
| Os2.FindUnicode4 | src/TrueType/Tables/TtfTableOs2.cs:322-323 | the first platform-0 encoding record whose subtable has format 4, and none exactly when there is none |
| Os2.FindWindowsBmp | src/TrueType/Tables/TtfTableOs2.cs:375-376 | the first (3, 1) encoding record, and none exactly when there is none |
| Os2.Metrics | src/TrueType/Tables/TtfTableOs2.cs:306-371 | the average width is the given one; sub- and superscript x size is half the widest advance, their y size and offset half the head box's height; the strikeout comes from post and head; the typographic metrics are hhea's; the Windows ascent and descent are hhea's ascent and negated descent cut to 16 bits |
| Os2.Validate | src/TrueType/Tables/TtfTableOs2.cs:292-436 | no platform-0 format-4 subtable gives NotSupported; a selected range bit of 128 or more gives IndexOutOfRange; a (3, 1) record without format 4 gives InvalidOperation; otherwise the metrics are derived, the first and last character and the range words are set, the matched code pages are ORed in only when a (3, 1) record exists, and nothing else changes |
| Sorting.Insert | src/TrueType/Tables/TtfTableCmap.cs:34-39 | inserting an element adds exactly that element, as a multiset |
| Sorting.InsertSorted | src/TrueType/Tables/TtfTableCmap.cs:34-39 | inserting into a sorted list keeps it sorted by the key |
| Sorting.SortSorts | src/TrueType/Tables/TtfTableCmap.cs:34-39 | the sorted list is ordered by the key and is a permutation of the input |
| Sorting.SortKeepsSorted | src/TrueType/Tables/TtfTableCmap.cs:34-39 | a list already sorted by the key is left as it is |
| Sorting.SortStrict | src/Builder/TrueTypeFontBuilder.cs:124 | when the keys are distinct the sorted list is strictly ascending, so no tie arises and the order is the only one the library can give |

## Left out

- Struct layout through `MemoryMarshal`/`Unsafe`: each record is an explicit list of big-endian fields in declaration order, as the library lays them out on a little-endian host.
- The identity wrappers `I8`, `U8`, `FWord`, `UFWord` and `Fixed` are their underlying integers.
- `ToString` of the endian wrappers: string formatting is not modelled.
- `LongDateTime` and the `DateTime.UtcNow` stamp in `BuildHead`: system time and floating seconds.
- `OS/2` floating point: `xAvgCharWidth` is computed with `double` arithmetic; the model takes the computed value as an input.
- `OS/2` code pages: detection goes through `CodePagesEncodingProvider`, a foreign encoding library; the model takes the set of supported code pages as an input and proves only where each page's bit lands.
- `OS/2` Unicode-range selection: which ranges apply depends on a static sort and a scan that disagree on direction; the model takes the chosen range bits as an input and proves only the bit placement and the error for a bit of 128 or more.
- Text encoding: `TryAddGlyph(char)` and the ASCII and big-endian UTF-16 encodings of the name records; name bytes are opaque sequences and glyphs are registered by code.
- Runtime dispatch: the table factory registry, `RegisterTableDefinition` and lookups by runtime type become a fixed datatype of table kinds with dependency lists.
- Per-table `Validate` and `Deserialize` inside the font engine are parameters of `FontFile` (the outcome of a table's own `Validate` in this font, either its error or the bytes it then writes, and a parse function); each table's own operations are modelled in its module.
- The builder's `BuildHead`, `BuildHhea`, `BuildMaxp`, `BuildLoca`, `BuildName`, `BuildPost`, `BuildOs2` and `BuildGasp` are not part of `Builder.BuiltFont`; it holds the table order, `cmap`, `glyf`, `hmtx`, `EBLC` and `EBDT`.
- Composite glyphs, which the library rejects with `NotImplementedException`; hinting instructions are opaque bytes.
- An out-of-range `WidthMode` value (`ArgumentOutOfRangeException` in `GetGlyphSize`) cannot be represented: the width mode is a datatype with the four named modes.
- File I/O and concurrency: the library has none in its core.
- `List.Sort` is unstable; the model sorts `cmap` encoding records and font tables with a stable insertion sort, so the order of equal keys is not modelled.
- `HashSet` enumeration order: the distinct `cmap` subtables are taken in the order their records first name them.
- Partial writes before an error: when `GlyfTable.Serialize` or `Cmap.Serialize` throws, the model returns the error and not the bytes already written; when `FontLayout.Serialize` or `FontFile.TrueTypeFont.Serialize` fails in the layout, the destination's contents are not stated.
- FontFile.TrueTypeFont.Validate: when a table's own `Validate` throws, the tables validated before it keep the images they were given; the library has already updated them, but the error is what `GetSize` and `Serialize` then return.
- FontFile.TrueTypeFont.Validate: a table's `Validate` outcome is fixed for the font; the model does not follow how it reads the tables validated before it.
- EblcValidate.WithEbdt: the section is an index into `EBDT`'s sections, not an object reference, so the bitmap count can be compared only once the section is known to be in `EBDT`; a section outside `EBDT` whose count also differs fails with InvalidOperation, where the library, which compares the count first, throws IndexOutOfRange.
- EblcValidate.SectionFormat: a section is a list of bitmaps, so an empty one names no format and the header keeps its previous image format; the library takes the format from the section's type even when it is empty.
- Head.GetDirectionHint: a `fontDirectionHint` outside -2..2 gives no hint; the library casts any `short` to the enum and returns an unnamed value.
- A destination that is not zero-filled: table images assume fresh destination bytes where the library skips bytes (padding).
- `Gasp`'s `RangeGaspBehaviour` accessor casts a `ushort`-backed flag enum; the model keeps the behaviour as its 16 bits, and the accessor round trip is the identity.
- Name.RoundTrip: requires the table to fit 16-bit counts and offsets (`Fits16`); beyond that `Serialize` wraps its casts, which `Name.Serialize` models, and the reader cannot get the records back.
- Gasp.RoundTrip: requires fewer than 65536 ranges, since `numRanges` wraps beyond that.
- Hmtx.RoundTrip: requires fewer than 65536 long metrics, for the same reason.
- Loca.RoundTrip: requires at most 65536 offsets, since `maxp.numGlyphs` is 16 bits.
- Glyf.EntryRoundTrip: requires at least one contour and fewer than 32768; with none the reader fails at `EndPtsOfContours[^1]`, which `Glyf` models.
- GlyfTable.RoundTrip: requires a total size below 2^31, the reader's `int` offsets.
- EbdtRoundTrip.VariableRoundTrip: requires the table to stay below 2^31 bytes; formats 1, 5 and 6 come back as the as-written readers give them (`Reread`), not as written in.
- EbdtBits.ByteAlignedAsWrittenRoundTrip: states the round trip only for widths that are a multiple of 8; other widths lose pixels as `ByteAlignedAsWrittenDiffers` shows.
- BuilderCmap.CmapMaps: states that every mapping is covered by a segment, not which of two segments covering the same code a format-4 lookup picks; a registered code that is also forced (0x0D registered without contours) is covered by both, and `BuilderCmap.MergedMeans` puts the forced mapping first.
- Builder.BuiltMaps: the same coverage statement, for the built font.
- BuilderBitmaps.BitmapKeepsPixels: requires the glyph's cell to lie wholly on its sheet; a cell that reaches exactly one column or row past the edge meets the `>` comparison finding.

## Findings

| source | as written | input that shows it | evidently intended | confidence | as-written member | corrected member |
|---|---|---|---|---|---|---|
| src/TrueType/Tables/TtfTableCmap.cs:242 | format 0 reads its 256-byte array with `ReadBytes(Span)`, which copies from the start of the subtable window, header included | a format-0 subtable that maps char 0 to glyph 1: read back, char 0 maps to glyph 0, the high byte of `format` | read the array after the 6-byte header | not executed | CmapSubtables.RoundTrip0Fails | CmapSubtables.RoundTrip0 |
| src/Builder/TrueTypeFontBuilder.cs:415 | the builder's format-0 array stores the sorted position k of each code | only the space registered: format 4 maps it to glyph 2, format 0 to glyph 0 | store the glyph k + 2, as format 4 does | not executed | BuilderCmap.FormatZeroAsWrittenDisagrees | BuilderCmap.IndexArrayAgrees |
| src/TrueType/Tables/TtfTableEblc.cs:298-299 | with big metrics, the horizontal `beforeBL` and `afterBL` start from `horiBearingX` | a glyph 5 high with horiBearingX 0 and horiBearingY 4: before 0 and after -5 instead of 4 and -1 | start from `horiBearingY`, as the small-metrics branch does | not executed | EblcValidate.BigHoriAsWrittenDiffers | EblcValidate.BigHoriIsSmall |
| src/Builder/TrueTypeFontBuilder.cs:667-673 | the trim scan skips a row or column only when it lies past the sheet's edge by more than one (`>`) | a 2×2 sheet with its lower-left pixel set and a 3×1 cell at its corner: column 2 is read from the next row and the glyph gets that pixel | skip at the edge (`>=`) | not executed | BuilderBitmaps.TrimAsWrittenReadsNextRow | BuilderBitmaps.TrimSucceeds |
| src/TrueType/Tables/TtfTableEbdt.cs:439-440 | the format-5 reader shifts an `int` left and takes `current >> 7` without a mask, so each pixel keeps the earlier bits of its byte | image [0x80] at 2×1: pixels 1 and 2 instead of 1 and 0 | mask the shifted value to its top bit | not executed | EbdtBits.MonospaceAsWrittenSmears | EbdtBits.MonospaceRoundTrip |
| src/TrueType/Tables/TtfTableEbdt.cs:213-220 | the byte-aligned row reader takes each pixel before it reads a byte, so every row lags one byte | a 1×1 image 0x80: the pixel reads as 0 and no byte is consumed | read a row's byte before its first pixel | not executed | EbdtBits.ByteAlignedAsWrittenLosesPixel | EbdtBits.ByteAlignedRoundTrip |
