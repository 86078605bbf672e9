/**
 * The `glyf` table: the glyph entries in glyph order, each either null (a
 * glyph with no outline) or a simple glyph, laid end to end; with `align`
 * set each entry's room is rounded up to a multiple of four bytes.  Where
 * each entry starts is what `loca` records.
 */
module GlyfTable {
  import opened Wrappers
  import opened Bytes
  import BufferReaders
  import Glyf
  import Slots

  type Entry = Option<Glyf.SimpleGlyph>

  datatype GlyfTable = GlyfTable(align: bool, entries: seq<Entry>)

  // ------------------------------------------------------------ layout

  /** The room an entry takes: none for a null entry, else its size, rounded up to 4 when aligned. */
  function SlotSize(align: bool, e: Entry): nat
  {
    if e.None? then 0
    else if align then Round4(Glyf.EntrySize(e.value))
    else Glyf.EntrySize(e.value)
  }

  /** The rooms of the entries, in order. */
  function Sizes(align: bool, entries: seq<Entry>): (sizes: seq<nat>)
    ensures |sizes| == |entries| && forall i :: 0 <= i < |entries| ==> sizes[i] == SlotSize(align, entries[i])
  {
    seq(|entries|, i requires 0 <= i < |entries| => SlotSize(align, entries[i]))
  }

  /** The room all the entries take, one after another. */
  function TotalSize(align: bool, entries: seq<Entry>): nat
  {
    Slots.Total(Sizes(align, entries))
  }

  /** Where entry i starts: the room the entries before it take. */
  function Offset(align: bool, entries: seq<Entry>, i: nat): nat
    requires i <= |entries|
  {
    Slots.Total(Sizes(align, entries)[..i])
  }

  /** A non-null entry takes room, at least its own size; a null one takes none. */
  lemma {:induction false} SlotSizeBounds(align: bool, e: Entry)
    ensures e.None? <==> SlotSize(align, e) == 0
    ensures e.Some? ==> Glyf.EntrySize(e.value) <= SlotSize(align, e) < Glyf.EntrySize(e.value) + 4
    ensures e.Some? && !align ==> SlotSize(align, e) == Glyf.EntrySize(e.value)
    ensures align ==> SlotSize(align, e) % 4 == 0
  {
    if e.Some? {
      Round4Bounds(Glyf.EntrySize(e.value));
    }
  }

  /** Entry i ends where entry i + 1 starts, no later than the table's end; the first starts at 0. */
  lemma {:induction false} OffsetStep(align: bool, entries: seq<Entry>, i: nat)
    requires i < |entries|
    ensures Offset(align, entries, 0) == 0
    ensures Offset(align, entries, i + 1) == Offset(align, entries, i) + SlotSize(align, entries[i])
    ensures Offset(align, entries, i + 1) <= TotalSize(align, entries)
  {
    var sizes := Sizes(align, entries);
    assert sizes[..0] == [];
    Slots.TotalStep(sizes, i);
    Slots.TotalMonotone(sizes, i + 1, |entries|);
  }

  /** The offsets never decrease. */
  lemma {:induction false} OffsetMonotone(align: bool, entries: seq<Entry>, i: nat, j: nat)
    requires i <= j <= |entries|
    ensures Offset(align, entries, i) <= Offset(align, entries, j) <= TotalSize(align, entries)
    ensures Offset(align, entries, |entries|) == TotalSize(align, entries)
  {
    var sizes := Sizes(align, entries);
    Slots.TotalMonotone(sizes, i, j);
    assert sizes[..|entries|] == sizes;
  }

  /** A simple glyph's room: `GetSize` of the entry (its header and data), rounded up to 4 when aligned. */
  method Room(align: bool, g: Glyf.SimpleGlyph) returns (size: nat)
    ensures size == SlotSize(align, Some(g))
  {
    var dataSize := Glyf.GetGlyphDataSize(g);
    size := 10 + dataSize;
    if align {
      size := (size + 3) / 4 * 4;
    }
  }

  /** `GetSize`: the loop over the entries summing their rooms. */
  method GetSize(t: GlyfTable) returns (sum: nat)
    ensures sum == TotalSize(t.align, t.entries)
  {
    sum := 0;
    OffsetMonotone(t.align, t.entries, 0, |t.entries|);
    for i := 0 to |t.entries|
      invariant sum == Offset(t.align, t.entries, i)
    {
      OffsetStep(t.align, t.entries, i);
      var e := t.entries[i];
      if e.Some? {
        var size := Room(t.align, e.value);
        sum := sum + size;
      }
    }
  }

  // ------------------------------------------------------------ serializing

  /** The bytes an entry's room holds in a zero-filled destination: its image, then the padding left as it was. */
  function SlotImage(align: bool, e: Entry): (s: seq<byte>)
    ensures |s| == SlotSize(align, e)
  {
    if e.None? then []
    else
      SlotSizeBounds(align, e);
      Glyf.EntryImage(e.value) + Zeros(SlotSize(align, e) - Glyf.EntrySize(e.value))
  }

  function SlotImages(align: bool, entries: seq<Entry>): (parts: seq<seq<byte>>)
    ensures |parts| == |entries| && forall i :: 0 <= i < |entries| ==> parts[i] == SlotImage(align, entries[i])
    ensures Slots.Lengths(parts) == Sizes(align, entries)
  {
    seq(|entries|, i requires 0 <= i < |entries| => SlotImage(align, entries[i]))
  }

  /** The bytes of the entries' rooms, one after another. */
  function Image(align: bool, entries: seq<Entry>): (s: seq<byte>)
    ensures |s| == TotalSize(align, entries)
  {
    Slots.ConcatLength(SlotImages(align, entries));
    Slots.Concat(SlotImages(align, entries))
  }

  /** Entry i's room lies in the image between its offset and the next. */
  lemma {:induction false} ImageAt(align: bool, entries: seq<Entry>, i: nat)
    requires i < |entries|
    ensures Offset(align, entries, i + 1) == Offset(align, entries, i) + SlotSize(align, entries[i]) <= |Image(align, entries)|
    ensures Image(align, entries)[Offset(align, entries, i)..Offset(align, entries, i + 1)] == SlotImage(align, entries[i])
  {
    Slots.ConcatAt(SlotImages(align, entries), i);
  }

  /** An entry as serializing leaves it: a simple glyph gets its header's contour count written in. */
  function Written(e: Entry): (w: Entry)
    ensures w.None? <==> e.None?
    ensures e.Some? ==> w.value == e.value.(header := Glyf.WrittenHeader(e.value))
  {
    if e.None? then None else Some(e.value.(header := Glyf.WrittenHeader(e.value)))
  }

  function WrittenAll(entries: seq<Entry>): (ws: seq<Entry>)
    ensures |ws| == |entries| && forall i :: 0 <= i < |entries| ==> ws[i] == Written(entries[i])
  {
    seq(|entries|, i requires 0 <= i < |entries| => Written(entries[i]))
  }

  /**
   * What stops one entry being written at cursor in a destination of
   * destLength bytes: its slice must lie inside the destination (else
   * `Span.Slice` throws ArgumentOutOfRange), and its point count must match
   * its last contour end (else InvalidOperation).
   */
  function SlotError(e: Entry, cursor: nat, destLength: nat): Option<Error>
  {
    if e.None? then None
    else if cursor + Glyf.EntrySize(e.value) > destLength then Some(ArgumentOutOfRange)
    else if Glyf.NumPoints(e.value.endPtsOfContours) != |e.value.points| then Some(InvalidOperation(""))
    else None
  }

  /** The error of the first of entries 0 .. i - 1 that cannot be written at its offset, if any. */
  function FirstError(align: bool, entries: seq<Entry>, destLength: nat, i: nat): Option<Error>
    requires i <= |entries|
  {
    if i == 0 then None
    else
      var err := FirstError(align, entries, destLength, i - 1);
      if err.Some? then err else SlotError(entries[i - 1], Offset(align, entries, i - 1), destLength)
  }

  /** The destination's bytes once the images are written at its start: past its end nothing is written. */
  function Fill(image: seq<byte>, destLength: nat): (s: seq<byte>)
    ensures |s| == destLength
    ensures |image| <= destLength ==> s[..|image|] == image
    ensures |image| == destLength ==> s == image
  {
    if |image| >= destLength then image[..destLength] else image + Zeros(destLength - |image|)
  }

  /**
   * `Serialize` into a zero-filled destination of destLength bytes: each
   * non-null entry serialized into its slice at the running cursor, the
   * cursor then moved by the entry's room.  The first entry that cannot be
   * written decides the error; otherwise the entries come back with their
   * headers written and the destination holds their rooms in order.
   */
  method Serialize(t: GlyfTable, destLength: nat) returns (res: Result<(GlyfTable, seq<byte>)>)
    ensures FirstError(t.align, t.entries, destLength, |t.entries|).Some? ==>
      res == Err(FirstError(t.align, t.entries, destLength, |t.entries|).value)
    ensures FirstError(t.align, t.entries, destLength, |t.entries|).None? ==>
      res == Ok((t.(entries := WrittenAll(t.entries)), Fill(Image(t.align, t.entries), destLength)))
  {
    var cursor: nat := 0;
    var image: seq<byte> := [];
    var entries: seq<Entry> := [];
    SerializeStart(t.align, t.entries, destLength);
    for i := 0 to |t.entries|
      invariant WrittenUpTo(t.align, t.entries, destLength, i, cursor, image, entries)
    {
      var slot := WriteSlot(t.align, t.entries[i], cursor, destLength);
      SerializeStep(t.align, t.entries, destLength, i, cursor, image, entries, slot);
      if slot.Err? {
        return Err(slot.error);
      }
      image := image + slot.value.1;
      entries := entries + [slot.value.0];
      cursor := cursor + |slot.value.1|;
    }
    SerializeDone(t.align, t.entries, destLength, cursor, image, entries);
    res := Ok((t.(entries := entries), Fill(image, destLength)));
  }

  /**
   * The writing loop's state after i entries: none of them failed, the
   * cursor is at entry i's offset, the destination holds their rooms and
   * they are in their written form.
   */
  predicate WrittenUpTo(align: bool, entries: seq<Entry>, destLength: nat, i: nat,
      cursor: nat, image: seq<byte>, done: seq<Entry>)
  {
    i <= |entries| && FirstError(align, entries, destLength, i).None? &&
    cursor == Offset(align, entries, i) && image == Slots.Concat(SlotImages(align, entries)[..i]) &&
    done == WrittenAll(entries)[..i]
  }

  /**
   * One turn of the loop: a non-null entry serialized into its slice at
   * cursor, then its room completed by the padding, which is skipped and so
   * keeps the destination's zeros.
   */
  method WriteSlot(align: bool, e: Entry, cursor: nat, destLength: nat) returns (res: Result<(Entry, seq<byte>)>)
    ensures SlotError(e, cursor, destLength).Some? ==> res == Err(SlotError(e, cursor, destLength).value)
    ensures SlotError(e, cursor, destLength).None? ==> res == Ok((Written(e), SlotImage(align, e)))
  {
    if e.None? {
      return Ok((None, []));
    }
    var dataSize := Glyf.GetGlyphDataSize(e.value);
    var size := 10 + dataSize;
    if cursor + size > destLength {
      return Err(ArgumentOutOfRange);
    }
    var written := Glyf.SerializeEntry(e.value, size);
    if written.Err? {
      return Err(written.error);
    }
    var room := size;
    if align {
      room := (size + 3) / 4 * 4;
    }
    res := Ok((Some(written.value.0), written.value.1 + Zeros(room - size)));
  }

  /** Before the loop nothing is written. */
  lemma {:induction false} SerializeStart(align: bool, entries: seq<Entry>, destLength: nat)
    ensures WrittenUpTo(align, entries, destLength, 0, 0, [], [])
  {
    assert Sizes(align, entries)[..0] == [];
    assert SlotImages(align, entries)[..0] == [] && WrittenAll(entries)[..0] == [];
  }

  /**
   * One turn of the writing loop: an entry that cannot be written decides
   * the table's error; one that can adds its room and its written form.
   */
  lemma {:induction false} SerializeStep(align: bool, entries: seq<Entry>, destLength: nat, i: nat,
      cursor: nat, image: seq<byte>, done: seq<Entry>, slot: Result<(Entry, seq<byte>)>)
    requires i < |entries| && WrittenUpTo(align, entries, destLength, i, cursor, image, done)
    requires SlotError(entries[i], cursor, destLength).Some? ==> slot == Err(SlotError(entries[i], cursor, destLength).value)
    requires SlotError(entries[i], cursor, destLength).None? ==> slot == Ok((Written(entries[i]), SlotImage(align, entries[i])))
    ensures slot.Err? ==> FirstError(align, entries, destLength, |entries|) == Some(slot.error)
    ensures slot.Ok? ==>
      WrittenUpTo(align, entries, destLength, i + 1, cursor + |slot.value.1|, image + slot.value.1, done + [slot.value.0])
  {
    assert FirstError(align, entries, destLength, i + 1) == SlotError(entries[i], cursor, destLength);
    if slot.Err? {
      FirstErrorPrefix(align, entries, destLength, i + 1, |entries|);
    } else {
      OffsetStep(align, entries, i);
      Slots.ConcatStep(SlotImages(align, entries), i);
      Slots.TakeStep(WrittenAll(entries), i);
    }
  }

  /** After the last turn the destination holds the whole image and every entry is written. */
  lemma {:induction false} SerializeDone(align: bool, entries: seq<Entry>, destLength: nat,
      cursor: nat, image: seq<byte>, done: seq<Entry>)
    requires WrittenUpTo(align, entries, destLength, |entries|, cursor, image, done)
    ensures FirstError(align, entries, destLength, |entries|).None?
    ensures image == Image(align, entries) && done == WrittenAll(entries)
  {
    assert SlotImages(align, entries)[..|entries|] == SlotImages(align, entries);
    assert WrittenAll(entries)[..|entries|] == WrittenAll(entries);
  }

  /** Once an entry cannot be written, later entries change nothing: its error is the table's. */
  lemma {:induction false} FirstErrorPrefix(align: bool, entries: seq<Entry>, destLength: nat, i: nat, j: nat)
    requires i <= j <= |entries| && FirstError(align, entries, destLength, i).Some?
    ensures FirstError(align, entries, destLength, j) == FirstError(align, entries, destLength, i)
    decreases j
  {
    if i < j {
      FirstErrorPrefix(align, entries, destLength, i, j - 1);
    }
  }

  /** Writing fails exactly when some non-null entry overruns the destination or has a mismatched point count. */
  lemma {:induction false} SerializeSucceeds(align: bool, entries: seq<Entry>, destLength: nat, n: nat)
    requires n <= |entries|
    ensures FirstError(align, entries, destLength, n).None? <==>
      forall i :: 0 <= i < n ==> SlotError(entries[i], Offset(align, entries, i), destLength).None?
  {
    if n > 0 {
      SerializeSucceeds(align, entries, destLength, n - 1);
      var ok := SlotError(entries[n - 1], Offset(align, entries, n - 1), destLength).None?;
      assert FirstError(align, entries, destLength, n).None? <==> FirstError(align, entries, destLength, n - 1).None? && ok;
    }
  }

  /** Writing into a destination of at least the table's size fails only on an entry with a mismatched point count. */
  lemma {:induction false} SerializeIntoOwnSize(align: bool, entries: seq<Entry>, destLength: nat)
    requires TotalSize(align, entries) <= destLength
    ensures FirstError(align, entries, destLength, |entries|).None? <==>
      forall i :: 0 <= i < |entries| && entries[i].Some? ==>
        Glyf.NumPoints(entries[i].value.endPtsOfContours) == |entries[i].value.points|
  {
    SerializeSucceeds(align, entries, destLength, |entries|);
    forall i | 0 <= i < |entries| && entries[i].Some?
      ensures Offset(align, entries, i) + Glyf.EntrySize(entries[i].value) <= destLength
    {
      OffsetStep(align, entries, i);
      SlotSizeBounds(align, entries[i]);
    }
  }

  // ------------------------------------------------------------ parsing

  /** A `loca` offset as a byte position: a long offset as it is, a short one doubled in 32-bit arithmetic. */
  function Position(isLong: bool, offset: u32): u32
  {
    if isLong then offset else (offset * 2) % 0x1_0000_0000
  }

  /**
   * One entry between two byte positions: null when they are equal;
   * otherwise the entry parsed from the slice between them, whose start and
   * length `TtfTableGlyf.cs` casts from `uint` to `int`.
   */
  function ReadEntry(r: BufferReaders.Reader, from: u32, to: u32): Result<Entry>
  {
    if from == to then Ok(None)
    else
      var slice :- BufferReaders.SliceFromStartLength(r, Signed(32, from), Signed(32, (to as int - from as int) % 0x1_0000_0000));
      var e :- Glyf.Create(slice);
      Ok(Some(e.0))
  }

  /** The entries between consecutive positions, the first starting at prev. */
  function ReadEntries(r: BufferReaders.Reader, isLong: bool, offsets: seq<u32>, prev: u32): (res: Result<seq<Entry>>)
    ensures res.Ok? ==> |res.value| == |offsets|
  {
    if offsets == [] then Ok([])
    else
      var to := Position(isLong, offsets[0]);
      var e :- ReadEntry(r, prev, to);
      var others :- ReadEntries(r, isLong, offsets[1..], to);
      Ok([e] + others)
  }

  /**
   * `Deserialize` with the `loca` offsets and format: the first offset, taken
   * as it is (not doubled in the short format), then one entry per further
   * offset, appended to the entries the table already holds; the reader is
   * only sliced, never advanced.
   */
  function Deserialize(t: GlyfTable, r: BufferReaders.Reader, isLong: bool, offsets: seq<u32>): (res: Result<GlyfTable>)
    ensures offsets == [] ==> res == Err(ArgumentOutOfRange)
    ensures res.Ok? ==> res.value.align == t.align && |res.value.entries| == |t.entries| + |offsets| - 1
    ensures res.Ok? ==> res.value.entries[..|t.entries|] == t.entries
  {
    if offsets == [] then Err(ArgumentOutOfRange)
    else
      var read :- ReadEntries(r, isLong, offsets[1..], offsets[0]);
      Ok(t.(entries := t.entries + read))
  }

  /** Entries already read, in front of what the rest of the loop reads. */
  function Then(found: seq<Entry>, res: Result<seq<Entry>>): Result<seq<Entry>>
  {
    if res.Err? then res else Ok(found + res.value)
  }

  /** `Deserialize` as `TtfTableGlyf.cs` runs it: the loop over the offsets. */
  method DeserializeFrom(t: GlyfTable, r: BufferReaders.Reader, isLong: bool, offsets: seq<u32>) returns (res: Result<GlyfTable>)
    ensures res == Deserialize(t, r, isLong, offsets)
  {
    if |offsets| == 0 {
      return Err(ArgumentOutOfRange);
    }
    var prevOffset := offsets[0];
    var found: seq<Entry> := [];
    var i := 1;
    ReadStart(r, isLong, offsets);
    while i < |offsets|
      invariant 1 <= i <= |offsets|
      invariant Then(found, ReadEntries(r, isLong, offsets[i..], prevOffset)) == ReadEntries(r, isLong, offsets[1..], offsets[0])
    {
      var to := Position(isLong, offsets[i]);
      var e := ReadEntryAt(r, prevOffset, to);
      ReadStep(r, isLong, offsets, i, found, prevOffset, e);
      if e.Err? {
        return Err(e.error);
      }
      found := found + [e.value];
      prevOffset := to;
      i := i + 1;
    }
    ReadDone(r, isLong, offsets, found, prevOffset);
    res := Ok(t.(entries := t.entries + found));
  }

  /** One turn of the loop: the slice between two positions, parsed unless they are equal. */
  method ReadEntryAt(r: BufferReaders.Reader, from: u32, to: u32) returns (res: Result<Entry>)
    ensures res == ReadEntry(r, from, to)
  {
    if from == to {
      return Ok(None);
    }
    var slice := BufferReaders.SliceFromStartLength(r, Signed(32, from), Signed(32, (to as int - from as int) % 0x1_0000_0000));
    if slice.Err? {
      return Err(slice.error);
    }
    var created := Glyf.CreateEntry(slice.value);
    if created.Err? {
      return Err(created.error);
    }
    res := Ok(Some(created.value.0));
  }

  /** Before the loop nothing is read and every offset after the first remains. */
  lemma {:induction false} ReadStart(r: BufferReaders.Reader, isLong: bool, offsets: seq<u32>)
    requires |offsets| > 0
    ensures Then([], ReadEntries(r, isLong, offsets[1..], offsets[0])) == ReadEntries(r, isLong, offsets[1..], offsets[0])
  {
    ThenNil(ReadEntries(r, isLong, offsets[1..], offsets[0]));
  }

  /** One turn of the reading loop: an entry that fails is the table's error; one that parses joins those found. */
  lemma {:induction false} ReadStep(r: BufferReaders.Reader, isLong: bool, offsets: seq<u32>, i: nat,
      found: seq<Entry>, prev: u32, read: Result<Entry>)
    requires 1 <= i < |offsets| && read == ReadEntry(r, prev, Position(isLong, offsets[i]))
    requires Then(found, ReadEntries(r, isLong, offsets[i..], prev)) == ReadEntries(r, isLong, offsets[1..], offsets[0])
    ensures read.Err? ==> ReadEntries(r, isLong, offsets[1..], offsets[0]) == Err(read.error)
    ensures read.Ok? ==>
      Then(found + [read.value], ReadEntries(r, isLong, offsets[i + 1..], Position(isLong, offsets[i]))) ==
      ReadEntries(r, isLong, offsets[1..], offsets[0])
  {
    var rest := offsets[i..];
    assert rest[0] == offsets[i] && rest[1..] == offsets[i + 1..];
    if read.Ok? {
      ThenAssoc(found, read.value, ReadEntries(r, isLong, offsets[i + 1..], Position(isLong, offsets[i])));
    }
  }

  /** After the last offset the entries found are all there is. */
  lemma {:induction false} ReadDone(r: BufferReaders.Reader, isLong: bool, offsets: seq<u32>, found: seq<Entry>, prev: u32)
    requires |offsets| > 0
    requires Then(found, ReadEntries(r, isLong, offsets[|offsets|..], prev)) == ReadEntries(r, isLong, offsets[1..], offsets[0])
    ensures ReadEntries(r, isLong, offsets[1..], offsets[0]) == Ok(found)
  {
    assert offsets[|offsets|..] == [];
    assert found + [] == found;
  }

  lemma {:induction false} ThenNil(res: Result<seq<Entry>>)
    ensures Then([], res) == res
  {
    if res.Ok? {
      assert [] + res.value == res.value;
    }
  }

  lemma {:induction false} ThenAssoc(found: seq<Entry>, e: Entry, res: Result<seq<Entry>>)
    ensures Then(found + [e], res) == Then(found, Then([e], res))
  {
    if res.Ok? {
      assert found + [e] + res.value == found + ([e] + res.value);
    }
  }

  // ------------------------------------------------------------ round trip

  /** An entry the writer accepts and the reader parses back: at least one contour, counts within their fields. */
  predicate Parsable(e: Entry)
  {
    e.Some? ==>
      0 < |e.value.endPtsOfContours| < 0x8000 && |e.value.instructions| < 0x1_0000 &&
      Glyf.NumPoints(e.value.endPtsOfContours) == |e.value.points|
  }

  /** What parsing a written entry gives back: the written header, the instructions, the contours and the restored points. */
  function Reparsed(e: Entry): (p: Entry)
    ensures p.None? <==> e.None?
  {
    if e.None? then None
    else
      var g := e.value;
      Some(Glyf.SimpleGlyph(Glyf.WrittenHeader(g), g.instructions, Glyf.RestoredPoints(g.points), g.endPtsOfContours))
  }

  function ReparsedAll(entries: seq<Entry>): (ps: seq<Entry>)
    ensures |ps| == |entries| && forall i :: 0 <= i < |entries| ==> ps[i] == Reparsed(entries[i])
  {
    seq(|entries|, i requires 0 <= i < |entries| => Reparsed(entries[i]))
  }

  /** Offsets that locate the entries: one per entry boundary, starting at 0, each the position of its boundary. */
  predicate Locates(align: bool, entries: seq<Entry>, isLong: bool, offsets: seq<u32>)
  {
    |offsets| == |entries| + 1 && offsets[0] == 0 &&
    forall i :: 0 <= i < |offsets| ==> Position(isLong, offsets[i]) as int == Offset(align, entries, i)
  }

  /** The `(int)` casts in `TtfTableGlyf.cs` of two positions below 2^31 and of their distance keep them unchanged. */
  lemma {:induction false} SliceBetween(r: BufferReaders.Reader, from: u32, to: u32)
    requires from < to < 0x8000_0000 && to as int <= |r.buffer|
    ensures BufferReaders.SliceFromStartLength(r, Signed(32, from), Signed(32, (to as int - from as int) % 0x1_0000_0000)) ==
      Ok(BufferReaders.Fresh(r.buffer[from..to]))
  {
    var length := to as int - from as int;
    assert length % 0x1_0000_0000 == length;
    assert Signed(32, from) == from && Signed(32, length) == length;
  }

  /** Between two distinct positions the entry is the glyph `Create` parses from the bytes between them. */
  lemma {:induction false} ReadEntryFrom(r: BufferReaders.Reader, from: u32, to: u32, bytes: seq<byte>,
      glyph: Glyf.SimpleGlyph, next: BufferReaders.Reader)
    requires from < to < 0x8000_0000 && to as int <= |r.buffer| && r.buffer[from..to] == bytes
    requires Glyf.Create(BufferReaders.Fresh(bytes)) == Ok((glyph, next))
    ensures ReadEntry(r, from, to) == Ok(Some(glyph))
  {
    SliceBetween(r, from, to);
  }

  /** Entry k read back from the table's image between its two positions. */
  lemma {:induction false} ReadEntryOf(align: bool, entries: seq<Entry>, k: nat, from: u32, to: u32)
    requires k < |entries| && Parsable(entries[k])
    requires TotalSize(align, entries) < 0x8000_0000
    requires from as int == Offset(align, entries, k) && to as int == Offset(align, entries, k + 1)
    ensures ReadEntry(BufferReaders.Fresh(Image(align, entries)), from, to) == Ok(Reparsed(entries[k]))
  {
    var img := Image(align, entries);
    ImageAt(align, entries, k);
    SlotSizeBounds(align, entries[k]);
    if entries[k].Some? {
      var g := entries[k].value;
      var pad := Zeros(SlotSize(align, entries[k]) - Glyf.EntrySize(g));
      var bytes := Glyf.EntryImage(g) + pad;
      assert img[from..to] == bytes;
      Glyf.EntryRoundTrip(g, pad);
      var glyph := Glyf.SimpleGlyph(Glyf.WrittenHeader(g), g.instructions, Glyf.RestoredPoints(g.points), g.endPtsOfContours);
      ReadEntryFrom(BufferReaders.Fresh(img), from, to, bytes, glyph, BufferReaders.Reader(bytes, Glyf.EntrySize(g)));
    }
  }

  /** One turn of the reading loop, unfolded. */
  lemma {:induction false} ReadEntriesStep(r: BufferReaders.Reader, isLong: bool, rest: seq<u32>, prev: u32, e: Entry, others: seq<Entry>)
    requires |rest| > 0
    requires ReadEntry(r, prev, Position(isLong, rest[0])) == Ok(e)
    requires ReadEntries(r, isLong, rest[1..], Position(isLong, rest[0])) == Ok(others)
    ensures ReadEntries(r, isLong, rest, prev) == Ok([e] + others)
  {
  }

  /** The entries from k on, read back from the table's image. */
  lemma {:induction false} ReadEntriesOf(align: bool, entries: seq<Entry>, isLong: bool, offsets: seq<u32>,
      k: nat, prev: u32, rest: seq<u32>)
    requires forall i :: 0 <= i < |entries| ==> Parsable(entries[i])
    requires TotalSize(align, entries) < 0x8000_0000
    requires Locates(align, entries, isLong, offsets)
    requires k <= |entries| && prev == Position(isLong, offsets[k]) && rest == offsets[k + 1..]
    ensures ReadEntries(BufferReaders.Fresh(Image(align, entries)), isLong, rest, prev) == Ok(ReparsedAll(entries)[k..])
    decreases |entries| - k
  {
    var r := BufferReaders.Fresh(Image(align, entries));
    var parsed := ReparsedAll(entries);
    if k == |entries| {
      assert rest == [] && parsed[k..] == [];
    } else {
      assert rest[0] == offsets[k + 1];
      Slots.DropStep(offsets, k + 1);
      var to := Position(isLong, rest[0]);
      ReadEntryOf(align, entries, k, prev, to);
      ReadEntriesOf(align, entries, isLong, offsets, k + 1, to, rest[1..]);
      ReadEntriesStep(r, isLong, rest, prev, parsed[k], parsed[k + 1..]);
      Slots.DropStep(parsed, k);
    }
  }

  /** Every entry read back from the table's image, the first starting at the first offset. */
  lemma {:induction false} ReadAll(align: bool, entries: seq<Entry>, isLong: bool, offsets: seq<u32>)
    requires forall i :: 0 <= i < |entries| ==> Parsable(entries[i])
    requires TotalSize(align, entries) < 0x8000_0000
    requires Locates(align, entries, isLong, offsets)
    ensures ReadEntries(BufferReaders.Fresh(Image(align, entries)), isLong, offsets[1..], offsets[0]) == Ok(ReparsedAll(entries))
  {
    assert offsets[0] == Position(isLong, offsets[0]);
    ReadEntriesOf(align, entries, isLong, offsets, 0, offsets[0], offsets[1..]);
    Slots.WholeSuffix(ReparsedAll(entries));
  }

  /**
   * Parsing a written table with offsets that locate its entries gives back
   * every entry: a null entry as null, a simple glyph with its written
   * header, instructions, contours and restored points.
   */
  lemma {:induction false} RoundTrip(t: GlyfTable, isLong: bool, offsets: seq<u32>)
    requires forall i :: 0 <= i < |t.entries| ==> Parsable(t.entries[i])
    requires TotalSize(t.align, t.entries) < 0x8000_0000
    requires Locates(t.align, t.entries, isLong, offsets)
    ensures Deserialize(GlyfTable(t.align, []), BufferReaders.Fresh(Image(t.align, t.entries)), isLong, offsets) ==
      Ok(t.(entries := ReparsedAll(t.entries)))
  {
    ReadAll(t.align, t.entries, isLong, offsets);
    Slots.WholeSuffix(ReparsedAll(t.entries));
  }
}
