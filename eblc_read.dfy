/**
 * Reading the `EBLC` table back.  The header must say version 2.0; then
 * come `numSizes` size records, and each size's lookups are read from its
 * `indexSubTableArrayOffset`, counted from the start of the table.  A
 * lookup's `additionalOffsetToIndexSubtable` is added to that offset as an
 * `int`, so the sum wraps around.  The body of a subtable is read by its
 * `indexFormat`; any format but 1, 2 and 3 is refused.  The bitmap
 * sections are not known yet: they are attached when the `EBDT` table is
 * read, which takes a `Locator` from every subtable in order.
 */
module EblcRead {
  import opened Wrappers
  import opened Bytes
  import opened Eblc
  import BufferReaders
  import FixedTable
  import Slots
  import Words
  import Ebdt
  import EbdtRead

  type Reader = BufferReaders.Reader

  /** `(int)(uint)` of a field. */
  function Int(u: u32): int
  {
    EbdtRead.Int(u)
  }

  /** The `int` sum `a + b`, which wraps around. */
  function Add32(a: int, b: int): (r: int)
    requires -0x8000_0000 <= a < 0x8000_0000 && -0x8000_0000 <= b < 0x8000_0000
    ensures -0x8000_0000 <= r < 0x8000_0000
    ensures -0x8000_0000 <= a + b < 0x8000_0000 ==> r == a + b
  {
    Signed(32, (a + b) % 0x1_0000_0000)
  }

  // ------------------------------------------------------------ one index subtable

  /**
   * `DeserializeSubtableBody` of the subtable class the index format picks:
   * numGlyphs + 1 32-bit offsets (format 1), an image size and the shared
   * metrics (format 2), numGlyphs + 1 16-bit offsets (format 3).
   */
  function BodyRead(indexFormat: u16, r: Reader, numGlyphs: int): (res: Result<Body>)
    ensures res.Ok? ==> IndexFormat(res.value) == indexFormat
    ensures indexFormat != 1 && indexFormat != 2 && indexFormat != 3 ==> res == Err(NotSupported)
    ensures res.Ok? && !res.value.Monospace? ==> numGlyphs + 1 >= 0 && BodySize(res.value) == BodyWidth(indexFormat) * (numGlyphs + 1)
  {
    LayoutSizes();
    if indexFormat == 1 then
      var x :- BufferReaders.ReadUnalignedArray(r, 4, numGlyphs + 1);
      Ok(Offsets32(Words.Values32(x.0, numGlyphs + 1)))
    else if indexFormat == 2 then
      var s :- FixedTable.Deserialize(r, ImageSizeLayout);
      var m :- EbdtRead.ReadBig(s.1);
      Ok(Monospace(s.0[0], m.0))
    else if indexFormat == 3 then
      var x :- BufferReaders.ReadUnalignedArray(r, 2, numGlyphs + 1);
      Ok(Offsets16(Words.Values16(x.0, numGlyphs + 1)))
    else
      Err(NotSupported)
  }

  /** The width of one offset of a variable-metrics body. */
  function BodyWidth(indexFormat: u16): nat
  {
    if indexFormat == 1 then 4 else 2
  }

  /**
   * Subtable i of the size whose array starts at `offset`: its lookup,
   * the 8 i-th bytes of the array, then its header and body at the
   * lookup's offset past the array's start.  No section is attached yet.
   */
  function SubtableAt(data: Reader, offset: int, i: nat): (res: Result<IndexSubtable>)
    requires 0 <= offset <= |data.buffer| && offset < 0x8000_0000
    ensures res.Ok? ==> res.value.section.None? && res.value.header.indexFormat == IndexFormat(res.value.body)
  {
    LayoutSizes();
    var l :- FixedTable.Deserialize(BufferReaders.Reader(data.buffer[offset..], 8 * i), LookupLayout);
    var lookup := LookupOf(l.0);
    var sub :- BufferReaders.SliceFromStart(data, Add32(offset, Int(lookup.additionalOffsetToIndexSubtable)));
    var h :- FixedTable.Deserialize(sub, SubHeaderLayout);
    var header := SubHeaderOf(h.0);
    var body :- BodyRead(header.indexFormat, h.1, NumGlyphs(lookup));
    Ok(IndexSubtable(lookup, header, body, None))
  }

  function SubtableReads(data: Reader, offset: int): (f: nat --> Result<IndexSubtable>)
    requires 0 <= offset <= |data.buffer| && offset < 0x8000_0000
    ensures forall j: nat :: f.requires(j) && f(j) == SubtableAt(data, offset, j)
  {
    (j: nat) => SubtableAt(data, offset, j)
  }

  // ------------------------------------------------------------ one size

  /**
   * A size and its `numberOfIndexSubTables` subtables, whose array starts
   * at the size's `indexSubTableArrayOffset`; the size record is kept as read.
   */
  function StrikeRead(data: Reader, d: SizeData): (res: Result<Strike>)
    ensures res.Ok? ==> res.value.data == d && |res.value.subtables| == d.numberOfIndexSubTables as nat
  {
    var offset := Int(d.indexSubTableArrayOffset);
    var lookups :- BufferReaders.SliceFromStart(data, offset);
    var subs :- Gather(SubtableReads(data, offset), d.numberOfIndexSubTables as nat);
    Ok(Strike(d, subs))
  }

  /** The size records of the table, 48 bytes each. */
  function StrikeReads(data: Reader, records: seq<byte>): (f: nat --> Result<Strike>)
    ensures forall j: nat :: 48 * j + 48 <= |records| ==> f.requires(j) && f(j) == StrikeRead(data, SizeDataFrom(records[48 * j..]))
  {
    (j: nat) requires 48 * j + 48 <= |records| => StrikeRead(data, SizeDataFrom(records[48 * j..]))
  }

  // ------------------------------------------------------------ the table

  /**
   * `Deserialize`: the header, which must be version 2.0, the `numSizes`
   * size records, and the subtables of every size.  The reader moves past
   * the size records.
   */
  function Parse(data: Reader): (res: Result<(EblcTable, Reader)>)
    ensures res.Ok? ==> res.value.0.header.majorVersion == 2 && res.value.0.header.minorVersion == 0
    ensures res.Ok? ==> |res.value.0.sizes| == Int(res.value.0.header.numSizes)
  {
    LayoutSizes();
    var h :- FixedTable.Deserialize(data, HeaderLayout);
    var header := HeaderOf(h.0);
    if header.majorVersion != 2 || header.minorVersion != 0 then Err(NotSupported)
    else
      var records :- BufferReaders.ReadUnalignedArray(h.1, 48, Int(header.numSizes));
      var sizes :- Gather(StrikeReads(data, records.0), Int(header.numSizes));
      Ok((EblcTable(header, sizes), records.1))
  }

  // ------------------------------------------------------------ the link with EBDT

  function SubtableLists(t: EblcTable): (ls: seq<seq<IndexSubtable>>)
    ensures |ls| == |t.sizes| && forall i :: 0 <= i < |t.sizes| ==> ls[i] == t.sizes[i].subtables
  {
    seq(|t.sizes|, i requires 0 <= i < |t.sizes| => t.sizes[i].subtables)
  }

  /** Every index subtable of the table, size by size, in the order `EBDT`'s `Deserialize` visits them. */
  function Subtables(t: EblcTable): seq<IndexSubtable>
  {
    Slots.Concat(SubtableLists(t))
  }

  /** `GetOffset` of a format-3 body: the 16-bit offsets as `uint`s. */
  function Widen(o: seq<u16>): (w: seq<u32>)
    ensures |w| == |o| && forall i :: 0 <= i < |o| ==> w[i] as int == o[i] as int
  {
    seq(|o|, i requires 0 <= i < |o| => o[i] as u32)
  }

  /**
   * What `EBDT`'s `Deserialize` takes from a subtable: its image format and
   * offset and its glyph count, and either the shared image size and
   * metrics (a monospace subtable) or the glyph offsets.
   */
  function LocatorOf(s: IndexSubtable): (loc: EbdtRead.Locator)
    ensures loc.imageFormat == s.header.imageFormat && loc.imageDataOffset == s.header.imageDataOffset
    ensures loc.numGlyphs == NumGlyphs(s.lookup) && (loc.MonospaceLocator? <==> s.body.Monospace?)
  {
    match s.body
    case Monospace(size, m) => EbdtRead.MonospaceLocator(s.header.imageFormat, s.header.imageDataOffset, NumGlyphs(s.lookup), size, m)
    case Offsets32(o) => EbdtRead.VariableLocator(s.header.imageFormat, s.header.imageDataOffset, NumGlyphs(s.lookup), o)
    case Offsets16(o) => EbdtRead.VariableLocator(s.header.imageFormat, s.header.imageDataOffset, NumGlyphs(s.lookup), Widen(o))
  }

  function Locators(t: EblcTable): (locs: seq<EbdtRead.Locator>)
    ensures |locs| == |Subtables(t)| && forall k :: 0 <= k < |locs| ==> locs[k] == LocatorOf(Subtables(t)[k])
  {
    seq(|Subtables(t)|, k requires 0 <= k < |Subtables(t)| => LocatorOf(Subtables(t)[k]))
  }

  /** The number of subtables of the sizes before size i. */
  function Before(t: EblcTable, i: nat): nat
    requires i <= |t.sizes|
  {
    Slots.Total(Slots.Lengths(SubtableLists(t))[..i])
  }

  function AttachStrike(s: Strike, base: nat): (a: Strike)
    ensures a.data == s.data && |a.subtables| == |s.subtables|
    ensures forall j :: 0 <= j < |s.subtables| ==> a.subtables[j] == s.subtables[j].(section := Some(base + j))
  {
    Strike(s.data, seq(|s.subtables|, j requires 0 <= j < |s.subtables| => s.subtables[j].(section := Some(base + j))))
  }

  /**
   * The table once `EBDT`'s `Deserialize` has read a section through every
   * subtable, in order, and set it as that subtable's section.
   */
  function Attach(t: EblcTable): (a: EblcTable)
    ensures a.header == t.header && |a.sizes| == |t.sizes|
  {
    EblcTable(t.header, seq(|t.sizes|, i requires 0 <= i < |t.sizes| => AttachStrike(t.sizes[i], Before(t, i))))
  }

  /**
   * Every subtable of the attached table points at a section, and that is
   * the section read through the subtable's own locator; nothing else of
   * the subtable changes.
   */
  lemma {:induction false} AttachedSection(t: EblcTable, i: nat, j: nat)
    requires i < |t.sizes| && j < |t.sizes[i].subtables|
    ensures var a := Attach(t).sizes[i].subtables[j];
      && a.section.Some? && a.section.value < |Locators(t)|
      && Locators(t)[a.section.value] == LocatorOf(t.sizes[i].subtables[j])
      && a == t.sizes[i].subtables[j].(section := a.section)
  {
    Slots.ConcatIndex(SubtableLists(t), i, j);
  }

  // ------------------------------------------------------------ the reading loops

  /** One turn of the subtable loop: the lookup at the cursor of `lookups`, then the subtable it points at. */
  method DeserializeSubtable(data: Reader, offset: int, lookups: Reader, i: nat)
    returns (res: Result<IndexSubtable>, lookups': Reader)
    requires 0 <= offset <= |data.buffer| && offset < 0x8000_0000 && lookups == BufferReaders.Reader(data.buffer[offset..], 8 * i)
    ensures res == SubtableAt(data, offset, i)
    ensures lookups' == BufferReaders.Reader(data.buffer[offset..], 8 * (i + 1))
  {
    LayoutSizes();
    lookups' := BufferReaders.Advance(lookups, 8);
    var l := FixedTable.Deserialize(lookups, LookupLayout);
    if l.Err? {
      return Err(l.error), lookups';
    }
    var lookup := LookupOf(l.value.0);
    var subtableReader := BufferReaders.SliceFromStart(data, Add32(offset, Int(lookup.additionalOffsetToIndexSubtable)));
    if subtableReader.Err? {
      return Err(subtableReader.error), lookups';
    }
    var h := FixedTable.Deserialize(subtableReader.value, SubHeaderLayout);
    if h.Err? {
      return Err(h.error), lookups';
    }
    var header := SubHeaderOf(h.value.0);
    var indexFormat := header.indexFormat;
    if indexFormat != 1 && indexFormat != 2 && indexFormat != 3 {
      return Err(NotSupported), lookups';
    }
    var body := BodyRead(indexFormat, h.value.1, NumGlyphs(lookup));
    if body.Err? {
      return Err(body.error), lookups';
    }
    res := Ok(IndexSubtable(lookup, header, body.value, None));
  }

  /** The subtable loop of one size: `numberOfIndexSubTables` lookups read one after another. */
  method DeserializeStrike(data: Reader, d: SizeData) returns (res: Result<Strike>)
    ensures res == StrikeRead(data, d)
  {
    var offset := Int(d.indexSubTableArrayOffset);
    var start := BufferReaders.SliceFromStart(data, offset);
    if start.Err? {
      return Err(start.error);
    }
    var lookups := start.value;
    var subs: seq<IndexSubtable> := [];
    var count := d.numberOfIndexSubTables as nat;
    for i := 0 to count
      invariant lookups == BufferReaders.Reader(data.buffer[offset..], 8 * i)
      invariant Gather(SubtableReads(data, offset), i) == Ok(subs)
    {
      var s;
      s, lookups := DeserializeSubtable(data, offset, lookups, i);
      GatherStep(SubtableReads(data, offset), i, count, subs, s);
      if s.Err? {
        return Err(s.error);
      }
      subs := subs + [s.value];
    }
    res := Ok(Strike(d, subs));
  }

  /** One turn of the size loop: record i, then its subtables. */
  method DeserializeNext(data: Reader, records: seq<byte>, n: nat, i: nat, sizes: seq<Strike>) returns (res: Result<Strike>)
    requires i < n && |records| == 48 * n && Gather(StrikeReads(data, records), i) == Ok(sizes)
    ensures res.Ok? ==> Gather(StrikeReads(data, records), i + 1) == Ok(sizes + [res.value])
    ensures res.Err? ==> Gather(StrikeReads(data, records), n) == Err(res.error)
  {
    res := DeserializeStrike(data, SizeDataFrom(records[48 * i..]));
    GatherStep(StrikeReads(data, records), i, n, sizes, res);
  }

  /** `Deserialize`: the header, the size records, then for each size the subtable loop. */
  method Deserialize(data: Reader) returns (res: Result<(EblcTable, Reader)>)
    ensures res == Parse(data)
  {
    LayoutSizes();
    var h := FixedTable.Deserialize(data, HeaderLayout);
    if h.Err? {
      return Err(h.error);
    }
    var header := HeaderOf(h.value.0);
    if header.majorVersion != 2 || header.minorVersion != 0 {
      return Err(NotSupported);
    }
    var n := Int(header.numSizes);
    var bitmapSizes := BufferReaders.ReadUnalignedArray(h.value.1, 48, n);
    if bitmapSizes.Err? {
      return Err(bitmapSizes.error);
    }
    var records := bitmapSizes.value.0;
    var sizes: seq<Strike> := [];
    for i := 0 to n
      invariant Gather(StrikeReads(data, records), i) == Ok(sizes)
    {
      var size := DeserializeNext(data, records, n, i, sizes);
      if size.Err? {
        return Err(size.error);
      }
      sizes := sizes + [size.value];
    }
    res := Ok((EblcTable(header, sizes), bitmapSizes.value.1));
  }
}
