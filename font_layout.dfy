/**
 * The layout of a whole font file and `TrueTypeFont.Serialize`
 * (`src/TrueType/TrueTypeFont.cs`).
 *
 * A file starts with the 12-byte offset subtable, then one 16-byte
 * directory entry per table, then the tables' bytes, each table starting at
 * a multiple of four.  Every entry carries the checksum of its table's
 * padded window.  When the font has a `head` table, the third word of that
 * table (`checkSumAdjustment`) is set last, so that the words of the whole
 * file add up to 0xB1B0AFBA.
 *
 * A table here is its tag and the bytes its own `Serialize` writes, of the
 * length its `GetSize` reports; what those bytes are is modelled table by
 * table in the table modules.
 */
module FontLayout {
  import opened Bytes
  import opened Wrappers
  import opened Checksums
  import ByteArrays
  import CmapSubtables

  const ScalerType: u32 := 0x0001_0000
  /** The sum every file's words add up to once the adjustment is stored. */
  const ChecksumTarget: u32 := 0xB1B0_AFBA

  datatype TableImage = TableImage(tag: u32, image: seq<byte>)

  // ------------------------------------------------------------ the offset subtable

  datatype OffsetSubtable = OffsetSubtable(scalerType: u32, numTables: u16, searchRange: u16,
                                           entrySelector: u16, rangeShift: u16)

  /**
   * The values the `OffsetSubtable` constructor stores for a positive
   * count: msb is the index of the count's highest bit, and `searchRange`
   * and `rangeShift` are cut to 16 bits by their `(ushort)` casts.
   */
  function HeaderOf(numTables: u16): OffsetSubtable
    requires numTables > 0
  {
    CmapSubtables.Pow2Values();
    CmapSubtables.Log2Bounds(numTables);
    CmapSubtables.Log2Below(numTables, 16);
    var msb := CmapSubtables.Log2(numTables);
    var searchRange := CmapSubtables.Pow2(msb) * 16 % 0x1_0000;
    OffsetSubtable(ScalerType, numTables, searchRange, msb, (numTables * 16 - searchRange) % 0x1_0000)
  }

  /** The constructor: it refuses an empty font, and counts the shifts that empty the count. */
  method NewOffsetSubtable(numTables: u16) returns (res: Result<OffsetSubtable>)
    ensures numTables == 0 ==> res == Err(Argument)
    ensures numTables > 0 ==> res == Ok(HeaderOf(numTables))
  {
    if numTables == 0 {
      return Err(Argument);
    }
    var msb := CmapSubtables.HighestBit(numTables);
    CmapSubtables.Pow2Values();
    CmapSubtables.Log2Bounds(numTables);
    CmapSubtables.Log2Below(numTables, 16);
    var mp := CmapSubtables.Pow2(msb);
    var searchRange := mp * 16 % 0x1_0000;
    return Ok(OffsetSubtable(ScalerType, numTables, searchRange, msb, (numTables * 16 - searchRange) % 0x1_0000));
  }

  /**
   * The binary-search hints of the file format: `entrySelector` is
   * floor(log2 numTables), and below 4096 tables `searchRange` is 16 times
   * the largest power of two not above the count, and `rangeShift` the rest
   * of the directory's 16 * numTables bytes.
   */
  lemma {:induction false} HeaderHints(numTables: u16)
    requires numTables > 0
    ensures var h := HeaderOf(numTables);
            && h.scalerType == 0x0001_0000 && h.numTables == numTables
            && CmapSubtables.Pow2(h.entrySelector) <= numTables < 2 * CmapSubtables.Pow2(h.entrySelector)
            && (numTables < 4096 ==> h.searchRange == 16 * CmapSubtables.Pow2(h.entrySelector)
                                     && h.searchRange <= 16 * numTables
                                     && h.rangeShift == 16 * numTables - h.searchRange)
  {
    CmapSubtables.Log2Bounds(numTables);
    var p := CmapSubtables.Pow2(CmapSubtables.Log2(numTables));
    if numTables < 4096 {
      NoWrap(p, numTables);
    }
  }

  /** Below 4096 tables neither 16-bit cast cuts anything. */
  lemma {:induction false} NoWrap(p: nat, n: nat)
    requires p <= n < 4096
    ensures p * 16 % 0x1_0000 == p * 16 && (n * 16 - p * 16) % 0x1_0000 == n * 16 - p * 16
  {
  }

  function HeaderImage(h: OffsetSubtable): (s: seq<byte>)
    ensures |s| == 12
  {
    BE32(h.scalerType) + BE16(h.numTables) + BE16(h.searchRange) + BE16(h.entrySelector) + BE16(h.rangeShift)
  }

  /** The count reads back from bytes 4 and 5 of the header. */
  lemma {:induction false} HeaderCount(h: OffsetSubtable, s: seq<byte>)
    requires 12 <= |s| && s[..12] == HeaderImage(h)
    ensures U16At(s, 4) == h.numTables
  {
    assert s[4] == HeaderImage(h)[4] && s[5] == HeaderImage(h)[5];
  }

  // ------------------------------------------------------------ directory entries

  function EntryImage(e: Entry): (s: seq<byte>)
    ensures |s| == 16
  {
    BE32(e.tag) + BE32(e.checkSum) + BE32(e.offset) + BE32(e.length)
  }

  /** The entry at p, read as `MemoryMarshal.Read<TableDirectoryEntry>` does. */
  function ReadEntry(s: seq<byte>, p: nat): Entry
    requires p + 16 <= |s|
  {
    Entry(U32At(s, p), U32At(s, p + 4), U32At(s, p + 8), U32At(s, p + 12))
  }

  /** A written entry reads back as itself. */
  lemma {:induction false} EntryDecodes(e: Entry, s: seq<byte>, p: nat)
    requires p + 16 <= |s| && s[p..p + 16] == EntryImage(e)
    ensures ReadEntry(s, p) == e
  {
    EntryImageParts(e);
    SliceOfSlice(s, p, p + 16, 0, 4, p, p + 4);
    SliceOfSlice(s, p, p + 16, 4, 8, p + 4, p + 8);
    SliceOfSlice(s, p, p + 16, 8, 12, p + 8, p + 12);
    SliceOfSlice(s, p, p + 16, 12, 16, p + 12, p + 16);
    BE32RoundTrip(e.tag, s, p);
    BE32RoundTrip(e.checkSum, s, p + 4);
    BE32RoundTrip(e.offset, s, p + 8);
    BE32RoundTrip(e.length, s, p + 12);
  }

  lemma {:induction false} EntryImageParts(e: Entry)
    ensures var img := EntryImage(e);
            && img[0..4] == BE32(e.tag) && img[4..8] == BE32(e.checkSum)
            && img[8..12] == BE32(e.offset) && img[12..16] == BE32(e.length)
  {
    var a, b, c, d := BE32(e.tag), BE32(e.checkSum), BE32(e.offset), BE32(e.length);
    var img := EntryImage(e);
    Parts3(img, a + b, c, d, 8, 12);
    assert img[12..16] == d by {
      assert img[12..] == img[12..16];
    }
    assert img[0..4] == a && img[4..8] == b by {
      SliceOfSlice(img, 0, 8, 0, 4, 0, 4);
      SliceOfSlice(img, 0, 8, 4, 8, 4, 8);
      assert img[..8] == img[0..8];
      assert (a + b)[0..4] == a && (a + b)[4..8] == b;
    }
  }

  // ------------------------------------------------------------ where everything goes

  /** Where entry i starts: after the offset subtable and i entries. */
  function EntryOffset(i: nat): nat
  {
    12 + 16 * i
  }

  /** The first i tables' bytes, each padded to a multiple of four. */
  function Padded(ts: seq<TableImage>, i: nat): nat
    requires i <= |ts|
  {
    if i == 0 then 0 else Padded(ts, i - 1) + Round4(|ts[i - 1].image|)
  }

  /** Where table i starts: after the directory and the padded tables before it. */
  function OffsetOf(ts: seq<TableImage>, i: nat): nat
    requires i <= |ts|
  {
    EntryOffset(|ts|) + Padded(ts, i)
  }

  /** `GetSize`: the offset subtable, the directory and every table padded to a multiple of four. */
  function FileSize(ts: seq<TableImage>): nat
  {
    EntryOffset(|ts|) + Padded(ts, |ts|)
  }

  /** Each table starts where the one before it ends, rounded up to a multiple of four. */
  lemma {:induction false} OffsetNext(ts: seq<TableImage>, i: nat)
    requires i < |ts|
    ensures OffsetOf(ts, i + 1) == OffsetOf(ts, i) + Round4(|ts[i].image|)
  {
  }

  lemma {:induction false} OffsetEnds(ts: seq<TableImage>)
    ensures OffsetOf(ts, 0) == EntryOffset(|ts|) && OffsetOf(ts, |ts|) == FileSize(ts)
  {
  }

  /** Every table starts on a four-byte boundary. */
  lemma {:induction false} OffsetAligned(ts: seq<TableImage>, i: nat)
    requires i <= |ts|
    ensures OffsetOf(ts, i) % 4 == 0
  {
    if i == 0 {
      OffsetEnds(ts);
      Aligned4(3 + 4 * |ts|);
    } else {
      OffsetAligned(ts, i - 1);
      OffsetNext(ts, i - 1);
      Round4Bounds(|ts[i - 1].image|);
      AlignedSum(OffsetOf(ts, i - 1), Round4(|ts[i - 1].image|));
    }
  }

  lemma {:induction false} Aligned4(k: nat)
    ensures (4 * k) % 4 == 0
  {
  }

  lemma {:induction false} AlignedSum(a: nat, b: nat)
    requires a % 4 == 0 && b % 4 == 0
    ensures (a + b) % 4 == 0
  {
    assert a == 4 * (a / 4) && b == 4 * (b / 4);
    assert a + b == 4 * (a / 4 + b / 4);
    Aligned4(a / 4 + b / 4);
  }

  /** The padded window of table i ends at or before the start of every later table. */
  lemma {:induction false} OffsetWithin(ts: seq<TableImage>, i: nat, j: nat)
    requires i < j <= |ts|
    ensures OffsetOf(ts, i) + Round4(|ts[i].image|) <= OffsetOf(ts, j)
    decreases j
  {
    if j == i + 1 {
      OffsetNext(ts, i);
    } else {
      OffsetWithin(ts, i, j - 1);
      OffsetNext(ts, j - 1);
    }
  }

  /** `GetSize`'s loop: the padded sizes summed table by table. */
  method GetSize(ts: seq<TableImage>) returns (size: int)
    ensures size == FileSize(ts)
    ensures size % 4 == 0 && size >= EntryOffset(|ts|)
  {
    var sum := 0;
    for i := 0 to |ts|
      invariant sum == Padded(ts, i)
    {
      sum := sum + (|ts[i].image| + 3) / 4 * 4;
    }
    size := 12 + 16 * |ts| + sum;
    OffsetEnds(ts);
    OffsetAligned(ts, |ts|);
  }

  // ------------------------------------------------------------ the bytes Serialize writes

  /** A head table must be long enough to hold its adjustment word. */
  predicate Storable(t: TableImage)
  {
    IsHeadTag(t.tag) ==> |t.image| >= 12
  }

  /** The table's bytes as the loop leaves them: a head table's adjustment word zeroed. */
  function Stored(t: TableImage): (s: seq<byte>)
    requires Storable(t)
    ensures |s| == |t.image|
  {
    if IsHeadTag(t.tag) then Overwrite(t.image, 8, BE32(0)) else t.image
  }

  /**
   * What the first i turns of the loop need: a file of fewer than 2^31 bytes
   * (a span's length is an int) with room for the offset subtable, room for
   * the padded windows of the tables written so far, and head tables long
   * enough.
   */
  predicate Room(ts: seq<TableImage>, i: nat, len: nat)
  {
    && i <= |ts| && 12 <= len < 0x8000_0000
    && (i > 0 ==> OffsetOf(ts, i) <= len)
    && forall j :: 0 <= j < i ==> Storable(ts[j])
  }

  /** Room for i tables is room for fewer, and for table i - 1's window and entry. */
  lemma {:induction false} RoomShrinks(ts: seq<TableImage>, i: nat, len: nat)
    requires 0 < i && Room(ts, i, len)
    ensures Room(ts, i - 1, len)
    ensures OffsetOf(ts, i - 1) + Round4(|ts[i - 1].image|) == OffsetOf(ts, i) <= len
    ensures EntryOffset(i) <= EntryOffset(|ts|) <= OffsetOf(ts, i - 1)
  {
    OffsetNext(ts, i - 1);
  }

  /** The prefix the loop has written before its i-th turn: the header and the first i tables with their entries. */
  function Written(d: seq<byte>, ts: seq<TableImage>, i: nat): (w: seq<byte>)
    requires Room(ts, i, |d|) && |ts| % 0x1_0000 != 0
    ensures |w| == |d|
    decreases i, 0
  {
    if i == 0 then Overwrite(d, 0, HeaderImage(HeaderOf(|ts| % 0x1_0000)))
    else
      RoomShrinks(ts, i, |d|);
      Turn(d, ts, i - 1)
  }

  lemma {:induction false} WrittenNext(d: seq<byte>, ts: seq<TableImage>, i: nat)
    requires Room(ts, i + 1, |d|) && |ts| % 0x1_0000 != 0
    ensures Written(d, ts, i + 1) == Turn(d, ts, i)
  {
  }

  /** The i-th turn of the loop: table i's bytes in place after the first i, then its entry. */
  function Turn(d: seq<byte>, ts: seq<TableImage>, i: nat): (r: seq<byte>)
    requires i < |ts| && Room(ts, i + 1, |d|) && |ts| % 0x1_0000 != 0
    ensures |r| == |d|
    decreases i, 1
  {
    RoomShrinks(ts, i + 1, |d|);
    var placed := Placed(Written(d, ts, i), ts, i);
    Overwrite(placed, EntryOffset(i), EntryImage(EntryOf(ts, i, placed)))
  }

  /** w with table i's own bytes in place, before its entry is written. */
  function Placed(w: seq<byte>, ts: seq<TableImage>, i: nat): (p: seq<byte>)
    requires i < |ts| && Storable(ts[i]) && OffsetOf(ts, i + 1) <= |w|
    ensures |p| == |w|
  {
    OffsetNext(ts, i);
    Round4Bounds(|ts[i].image|);
    Overwrite(w, OffsetOf(ts, i), Stored(ts[i]))
  }

  /** Table i's entry: its tag, the sum of its padded window, where it starts and how long it is. */
  function EntryOf(ts: seq<TableImage>, i: nat, placed: seq<byte>): Entry
    requires i < |ts| && OffsetOf(ts, i + 1) <= |placed| < 0x8000_0000
  {
    OffsetNext(ts, i);
    var off := OffsetOf(ts, i);
    Entry(ts[i].tag, PartialSum(placed[off..OffsetOf(ts, i + 1)], Round4(|ts[i].image|) / 4), off, |ts[i].image|)
  }

  /** The last head table among the first i; its adjustment word is the one the file's sum is stored in. */
  function LastHead(ts: seq<TableImage>, i: nat): (h: Option<nat>)
    requires i <= |ts|
    ensures h.Some? ==> h.value < i && IsHeadTag(ts[h.value].tag)
    ensures h.Some? ==> forall j :: h.value < j < i ==> !IsHeadTag(ts[j].tag)
    ensures h.None? ==> forall j :: 0 <= j < i ==> !IsHeadTag(ts[j].tag)
  {
    if i == 0 then None
    else if IsHeadTag(ts[i - 1].tag) then Some(i - 1)
    else LastHead(ts, i - 1)
  }

  /** Where the loop has left its `checkSumAdjustment` span: the third word of the last head table so far. */
  function AdjustmentAt(ts: seq<TableImage>, i: nat): Option<nat>
    requires i <= |ts|
  {
    match LastHead(ts, i)
    case None => None
    case Some(h) => Some(OffsetOf(ts, h) + 8)
  }

  /** A font that fits: a count that survives the cast to 16 bits, and room for all of it. */
  predicate Fits(ts: seq<TableImage>, len: nat)
  {
    |ts| % 0x1_0000 != 0 && Room(ts, |ts|, len)
  }

  /** `0xB1B0AFBA - checkSum` in unsigned 32-bit arithmetic. */
  function Adjustment(sum: u32): u32
  {
    (ChecksumTarget - sum) % Modulus
  }

  lemma {:induction false} AdjustmentInside(ts: seq<TableImage>, h: nat, len: nat)
    requires Fits(ts, len) && h < |ts| && IsHeadTag(ts[h].tag)
    ensures OffsetOf(ts, h) + 12 <= OffsetOf(ts, h + 1) <= len
    ensures EntryOffset(|ts|) <= OffsetOf(ts, h)
  {
    OffsetNext(ts, h);
    Round4Bounds(|ts[h].image|);
    if h + 1 < |ts| {
      OffsetWithin(ts, h + 1, |ts|);
    }
  }

  /** The whole file `Serialize` leaves in a buffer that held d. */
  function Assembled(d: seq<byte>, ts: seq<TableImage>): (f: seq<byte>)
    requires Fits(ts, |d|)
    ensures |f| == |d|
  {
    AdjustmentFits(ts, |d|);
    AdjustedAt(Written(d, ts, |ts|), AdjustmentAt(ts, |ts|))
  }

  lemma {:induction false} AdjustmentFits(ts: seq<TableImage>, len: nat)
    requires Fits(ts, len)
    ensures AdjustmentAt(ts, |ts|).Some? ==> AdjustmentAt(ts, |ts|).value + 4 <= len
  {
    if LastHead(ts, |ts|).Some? {
      AdjustmentInside(ts, LastHead(ts, |ts|).value, len);
    }
  }

  /**
   * How `Serialize` ends for a buffer of len bytes: too short for the
   * offset subtable, a table count that casts to 0, a head table too short
   * for its adjustment word or a buffer too short for the file.
   */
  function Outcome(ts: seq<TableImage>, len: nat): (r: Result<()>)
    ensures len < 0x8000_0000 ==> (r.Ok? <==> Fits(ts, len))
  {
    OffsetEnds(ts);
    if len < 12 then Err(ArgumentOutOfRange)
    else if |ts| % 0x1_0000 == 0 then Err(Argument)
    else if !(forall j :: 0 <= j < |ts| ==> Storable(ts[j])) || FileSize(ts) > len then Err(ArgumentOutOfRange)
    else Ok(())
  }

  /** A table whose window does not fit: the whole file does not fit either. */
  lemma {:induction false} TooSmall(ts: seq<TableImage>, i: nat, len: nat, k: nat)
    requires i < |ts| && |ts| % 0x1_0000 != 0 && 12 <= len
    requires k <= Round4(|ts[i].image|) && OffsetOf(ts, i) + k > len
    ensures Outcome(ts, len) == Err(ArgumentOutOfRange)
  {
    OffsetWithin(ts, i, |ts|);
    OffsetEnds(ts);
  }

  // ------------------------------------------------------------ Serialize

  /**
   * `Serialize` with validation skipped: the offset subtable, then table by
   * table its bytes, its checksum and its entry, then the adjustment.
   */
  method Serialize(ts: seq<TableImage>, dest: array<byte>) returns (res: Result<()>)
    requires dest.Length < 0x8000_0000
    modifies dest
    ensures res == Outcome(ts, dest.Length)
    ensures res.Ok? ==> dest[..] == Assembled(old(dest[..]), ts)
  {
    ghost var d0 := dest[..];
    if dest.Length < 12 {
      return Err(ArgumentOutOfRange);
    }
    var header := NewOffsetSubtable(|ts| % 0x1_0000);
    if header.Err? {
      return Err(header.error);
    }
    ByteArrays.OverwriteInto(dest, 0, HeaderImage(header.value));
    var tables := WriteTables(ts, dest, d0);
    if tables.Err? {
      return Err(tables.error);
    }
    AdjustmentFits(ts, dest.Length);
    StoreAdjustment(dest, tables.value);
    return Ok(());
  }

  /** The loop over the tables; it ends with the place of the last head table's adjustment word, if any. */
  method WriteTables(ts: seq<TableImage>, dest: array<byte>, ghost d0: seq<byte>) returns (res: Result<Option<nat>>)
    requires |ts| % 0x1_0000 != 0 && 12 <= dest.Length < 0x8000_0000 && |d0| == dest.Length
    requires dest[..] == Written(d0, ts, 0)
    modifies dest
    ensures res.Err? ==> res.error == ArgumentOutOfRange && Outcome(ts, dest.Length) == Err(ArgumentOutOfRange)
    ensures res.Ok? ==> Fits(ts, dest.Length) && dest[..] == Written(d0, ts, |ts|) && res.value == AdjustmentAt(ts, |ts|)
  {
    var cursor := EntryOffset(|ts|);
    var adjustAt: Option<nat> := None;
    OffsetEnds(ts);
    for i := 0 to |ts|
      invariant Room(ts, i, dest.Length) && cursor == OffsetOf(ts, i)
      invariant dest[..] == Written(d0, ts, i)
      invariant adjustAt == AdjustmentAt(ts, i)
    {
      var start := cursor;
      var r := SerializeTable(ts, i, dest, cursor, d0);
      if r.Err? {
        return Err(r.error);
      }
      adjustAt := NextAdjustment(ts, i, adjustAt, start);
      cursor := r.value;
    }
    return Ok(adjustAt);
  }

  /** The loop's record of the last head table: moved on when table i is a head. */
  method NextAdjustment(ts: seq<TableImage>, i: nat, adjustAt: Option<nat>, start: nat) returns (next: Option<nat>)
    requires i < |ts| && adjustAt == AdjustmentAt(ts, i) && start == OffsetOf(ts, i)
    ensures next == AdjustmentAt(ts, i + 1)
    ensures next == if IsHeadTag(ts[i].tag) then Some(start + 8) else adjustAt
  {
    next := adjustAt;
    if IsHeadTag(ts[i].tag) {
      next := Some(start + 8);
    }
  }

  /** The last step: the file's word sum, and the adjustment stored at the place the loop recorded. */
  method StoreAdjustment(dest: array<byte>, adjustAt: Option<nat>)
    requires adjustAt.Some? ==> adjustAt.value + 4 <= dest.Length
    modifies dest
    ensures dest[..] == AdjustedAt(old(dest[..]), adjustAt)
  {
    if adjustAt.Some? {
      var sum := SumWords(dest[..]);
      ByteArrays.OverwriteInto(dest, adjustAt.value, BE32(Adjustment(sum)));
    }
  }

  /** w with `0xB1B0AFBA` minus its word sum stored at the given place, if any. */
  function AdjustedAt(w: seq<byte>, adjustAt: Option<nat>): (f: seq<byte>)
    requires adjustAt.Some? ==> adjustAt.value + 4 <= |w|
    ensures |f| == |w|
  {
    match adjustAt
    case None => w
    case Some(at) => Overwrite(w, at, BE32(Adjustment(WordSum(w))))
  }

  /** One turn of the loop: table i's bytes at the cursor, then its entry; the cursor moves past its padded window. */
  method SerializeTable(ts: seq<TableImage>, i: nat, dest: array<byte>, cursor: nat, ghost d0: seq<byte>) returns (res: Result<nat>)
    requires i < |ts| && |ts| % 0x1_0000 != 0 && |d0| == dest.Length
    requires Room(ts, i, dest.Length) && cursor == OffsetOf(ts, i) && dest[..] == Written(d0, ts, i)
    modifies dest
    ensures res.Err? ==> res.error == ArgumentOutOfRange && Outcome(ts, dest.Length) == Err(ArgumentOutOfRange)
    ensures res.Ok? ==> Room(ts, i + 1, dest.Length) && res.value == OffsetOf(ts, i + 1)
    ensures res.Ok? ==> dest[..] == Written(d0, ts, i + 1)
  {
    var t := ts[i];
    Round4Bounds(|t.image|);
    if cursor + |t.image| > dest.Length {
      TooSmall(ts, i, dest.Length, |t.image|);
      return Err(ArgumentOutOfRange);
    }
    var stored := StoreTable(t, dest, cursor);
    if !stored {
      NotStorable(ts, i, dest.Length);
      return Err(ArgumentOutOfRange);
    }
    var size := Round4(|t.image|);
    if cursor + size > dest.Length {
      TooSmall(ts, i, dest.Length, size);
      return Err(ArgumentOutOfRange);
    }
    PlacedTurn(ts, i, dest.Length);
    WriteEntry(ts, i, dest, cursor, d0);
    WrittenNext(d0, ts, i);
    OffsetAligned(ts, i);
    return Ok(NextCursor(cursor, |t.image|));
  }

  /** The checksum of table i's padded window, and the entry that carries it. */
  method WriteEntry(ts: seq<TableImage>, i: nat, dest: array<byte>, cursor: nat, ghost d0: seq<byte>)
    requires i < |ts| && Room(ts, i + 1, |d0|) && |ts| % 0x1_0000 != 0 && |d0| == dest.Length
    requires OffsetOf(ts, i + 1) == OffsetOf(ts, i) + Round4(|ts[i].image|) && cursor == OffsetOf(ts, i)
    requires dest[..] == Overwrite(Written(d0, ts, i), OffsetOf(ts, i), Stored(ts[i]))
    modifies dest
    ensures dest[..] == Turn(d0, ts, i)
  {
    ghost var placed := dest[..];
    var t := ts[i];
    var end := cursor + Round4(|t.image|);
    var window := dest[cursor..end];
    assert window == placed[OffsetOf(ts, i)..OffsetOf(ts, i + 1)] && |window| == Round4(|ts[i].image|);
    var sum := SumWords(window);
    ByteArrays.OverwriteInto(dest, EntryOffset(i), EntryImage(Entry(t.tag, sum, cursor, |t.image|)));
    EntryTurn(d0, ts, i, placed, sum, dest[..]);
  }

  /**
   * `table.Serialize(dataSpan)` followed, for a head table, by zeroing its
   * adjustment word through `dataSpan.Slice(8, 4)`, which throws when the
   * table is shorter than 12 bytes.
   */
  method StoreTable(t: TableImage, dest: array<byte>, cursor: nat) returns (ok: bool)
    requires cursor + |t.image| <= dest.Length
    modifies dest
    ensures ok <==> Storable(t)
    ensures ok ==> dest[..] == Overwrite(old(dest[..]), cursor, Stored(t))
  {
    ByteArrays.OverwriteInto(dest, cursor, t.image);
    if IsHeadTag(t.tag) {
      if |t.image| < 12 {
        return false;
      }
      ByteArrays.OverwriteInto(dest, cursor + 8, BE32(0));
      OverwriteNested(old(dest[..]), cursor, t.image, 8, BE32(0));
    }
    return true;
  }

  lemma {:induction false} NotStorable(ts: seq<TableImage>, i: nat, len: nat)
    requires i < |ts| && !Storable(ts[i]) && |ts| % 0x1_0000 != 0 && 12 <= len
    ensures Outcome(ts, len) == Err(ArgumentOutOfRange)
  {
  }

  /** A window that fits after the table's bytes are stored: room for one more table. */
  lemma {:induction false} PlacedTurn(ts: seq<TableImage>, i: nat, len: nat)
    requires i < |ts| && Room(ts, i, len) && Storable(ts[i])
    requires OffsetOf(ts, i) + Round4(|ts[i].image|) <= len
    ensures Room(ts, i + 1, len) && OffsetOf(ts, i + 1) == OffsetOf(ts, i) + Round4(|ts[i].image|)
  {
    OffsetNext(ts, i);
  }

  /** The entry written after the table's bytes completes the turn. */
  lemma {:induction false} EntryTurn(d: seq<byte>, ts: seq<TableImage>, i: nat, placed: seq<byte>, sum: u32, after: seq<byte>)
    requires i < |ts| && Room(ts, i + 1, |d|) && |ts| % 0x1_0000 != 0
    requires OffsetOf(ts, i + 1) == OffsetOf(ts, i) + Round4(|ts[i].image|)
    requires placed == Overwrite(Written(d, ts, i), OffsetOf(ts, i), Stored(ts[i]))
    requires sum == PartialSum(placed[OffsetOf(ts, i)..OffsetOf(ts, i + 1)], Round4(|ts[i].image|) / 4)
    requires after == Overwrite(placed, EntryOffset(i), EntryImage(Entry(ts[i].tag, sum, OffsetOf(ts, i), |ts[i].image|)))
    ensures after == Turn(d, ts, i)
  {
    RoomShrinks(ts, i + 1, |d|);
  }

  /** The cursor moved past n bytes and rounded up to a multiple of four. */
  function NextCursor(c: nat, n: nat): (next: nat)
    ensures c % 4 == 0 ==> next == c + Round4(n)
  {
    Round4Shift(c, n);
    (c + n + 3) / 4 * 4
  }

  /** An aligned cursor moved past n bytes and rounded up is the cursor plus n rounded up. */
  lemma {:induction false} Round4Shift(c: nat, n: nat)
    ensures c % 4 == 0 ==> (c + n + 3) / 4 * 4 == c + Round4(n)
  {
    if c % 4 == 0 {
      var q := c / 4;
      assert c == 4 * q;
      assert (c + n + 3) / 4 == q + (n + 3) / 4;
    }
  }
}
