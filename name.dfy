/**
 * The `name` table: a 6-byte header, an array of 12-byte name records and
 * the string area holding each record's bytes back to back.  Name bytes
 * are opaque here; the text encodings that produce them are not modelled.
 */
module Name {
  import opened Wrappers
  import opened Bytes
  import opened Records
  import opened RecordArrays
  import BufferReaders
  import FixedTable
  import ByteArrays

  datatype NameHeader = NameHeader(format: u16, count: u16, stringOffset: u16)

  datatype NameRecord = NameRecord(
    platformId: u16, platformSpecificId: u16, languageId: u16, nameId: u16, nameBytes: seq<byte>)

  datatype NameData = NameData(header: NameHeader, records: seq<NameRecord>)

  const HeaderLayout: Records.Layout := [U16, U16, U16]
  const RecordLayout: Records.Layout := [U16, U16, U16, U16, U16, U16]

  lemma {:induction false} LayoutSizes()
    ensures Size(HeaderLayout) == 6 && Size(RecordLayout) == 12
  {
  }

  // ------------------------------------------------ Validate

  /** The records whose name bytes are not empty, in their original order. */
  function NonEmpty(records: seq<NameRecord>): seq<NameRecord>
  {
    if |records| == 0 then []
    else
      var last := records[|records| - 1];
      NonEmpty(records[..|records| - 1]) + (if |last.nameBytes| == 0 then [] else [last])
  }

  /** The kept records are exactly the non-empty ones. */
  lemma {:induction false} NonEmptyKeepsExactly(records: seq<NameRecord>)
    ensures forall x :: x in NonEmpty(records) <==> x in records && |x.nameBytes| > 0
  {
    if |records| > 0 {
      var init := records[..|records| - 1];
      NonEmptyKeepsExactly(init);
      assert records == init + [records[|records| - 1]];
    }
  }

  /** Filtering keeps order: the records kept from a + b are those kept from a, then those kept from b. */
  lemma {:induction false} NonEmptyConcat(a: seq<NameRecord>, b: seq<NameRecord>)
    ensures NonEmpty(a + b) == NonEmpty(a) + NonEmpty(b)
    decreases |b|
  {
    if |b| == 0 {
      assert a + b == a;
    } else {
      var b' := b[..|b| - 1];
      assert (a + b)[..|a + b| - 1] == a + b';
      NonEmptyConcat(a, b');
    }
  }

  /** `Validate`: `Records.RemoveAll(r => r.NameBytes.Length == 0)`. */
  method Validate(n: NameData) returns (r: NameData)
    ensures r.header == n.header && r.records == NonEmpty(n.records)
  {
    var kept: seq<NameRecord> := [];
    var i := 0;
    while i < |n.records|
      invariant 0 <= i <= |n.records|
      invariant kept == NonEmpty(n.records[..i])
    {
      assert n.records[..i + 1][..i] == n.records[..i];
      if |n.records[i].nameBytes| != 0 {
        kept := kept + [n.records[i]];
      }
      i := i + 1;
    }
    assert n.records[..|n.records|] == n.records;
    r := n.(records := kept);
  }

  // ------------------------------------------------ sizes and the string area

  /** The total length of the records' name bytes. */
  function StringsLength(records: seq<NameRecord>): nat
  {
    if |records| == 0 then 0 else |records[0].nameBytes| + StringsLength(records[1..])
  }

  /** The string area: every record's bytes, back to back in record order. */
  function Strings(records: seq<NameRecord>): (s: seq<byte>)
    ensures |s| == StringsLength(records)
  {
    if |records| == 0 then [] else records[0].nameBytes + Strings(records[1..])
  }

  lemma {:induction false} StringsConcat(a: seq<NameRecord>, b: seq<NameRecord>)
    ensures Strings(a + b) == Strings(a) + Strings(b)
    ensures StringsLength(a + b) == StringsLength(a) + StringsLength(b)
  {
    if |a| == 0 {
      assert a + b == b;
    } else {
      assert (a + b)[1..] == a[1..] + b;
      StringsConcat(a[1..], b);
      Assoc(a[0].nameBytes, Strings(a[1..]), Strings(b));
    }
  }

  /** The string area of a list grown by one record grows by that record's bytes. */
  lemma {:induction false} StringsSnoc(records: seq<NameRecord>, i: nat)
    requires i < |records|
    ensures Strings(records[..i + 1]) == Strings(records[..i]) + records[i].nameBytes
    ensures StringsLength(records[..i + 1]) == StringsLength(records[..i]) + |records[i].nameBytes|
  {
    assert records[..i + 1] == records[..i] + [records[i]];
    StringsConcat(records[..i], [records[i]]);
    assert [records[i]][1..] == [];
    AppendEmpty(records[i].nameBytes);
  }

  /** A prefix's bytes are no longer than the whole list's. */
  lemma {:induction false} StringsPrefix(records: seq<NameRecord>, i: nat)
    requires i <= |records|
    ensures StringsLength(records[..i]) <= StringsLength(records)
  {
    assert records == records[..i] + records[i..];
    StringsConcat(records[..i], records[i..]);
  }

  /** `GetSize` = header + 12 per record + every record's bytes. */
  function GetSize(n: NameData): nat
  {
    6 + 12 * |n.records| + StringsLength(n.records)
  }

  /** The table fits 16-bit offsets: every offset and length the `(ushort)` casts store is exact. */
  predicate Fits16(n: NameData)
  {
    GetSize(n) < 0x1_0000
  }

  // ------------------------------------------------ Serialize

  /**
   * The header `Serialize` stores back: format 0, the record count and the
   * string area's offset, each cut to 16 bits by its `(ushort)` cast.
   */
  function WrittenHeader(n: NameData): (h: NameHeader)
    ensures h.format == 0 && h.count == |n.records| % 0x1_0000
    ensures h.stringOffset == (6 + 12 * h.count) % 0x1_0000
    ensures Fits16(n) ==> h.count == |n.records| && h.stringOffset == 6 + 12 * |n.records|
  {
    var count := |n.records| % 0x1_0000;
    NameHeader(0, count, (6 + 12 * count) % 0x1_0000)
  }

  function HeaderRow(h: NameHeader): seq<int>
  {
    [h.format as int, h.count as int, h.stringOffset as int]
  }

  /** The header's six bytes. */
  function HeaderImage(h: NameHeader): (s: seq<byte>)
    ensures |s| == 6
  {
    LayoutSizes();
    FixedTable.Serialize(HeaderLayout, HeaderRow(h))
  }

  /**
   * A record as written with its bytes at offset: its ids, then its length
   * and that offset, each cut to 16 bits by its `(ushort)` cast.
   */
  function RowAt(r: NameRecord, offset: nat): (row: seq<int>)
    ensures Conforms(RecordLayout, row)
    ensures offset + |r.nameBytes| < 0x1_0000 ==> row[4] == |r.nameBytes| && row[5] == offset
  {
    [r.platformId as int, r.platformSpecificId as int, r.languageId as int, r.nameId as int,
     |r.nameBytes| % 0x1_0000, offset % 0x1_0000]
  }

  /** The twelve bytes of a record whose bytes are at offset. */
  function RecordImage(r: NameRecord, offset: nat): (s: seq<byte>)
    ensures |s| == 12
  {
    LayoutSizes();
    FixedTable.Serialize(RecordLayout, RowAt(r, offset))
  }

  /** The record array for records whose bytes start at offset in the string area. */
  function RecordArea(records: seq<NameRecord>, offset: nat): (s: seq<byte>)
    ensures |s| == 12 * |records|
  {
    if |records| == 0 then []
    else RecordImage(records[0], offset) + RecordArea(records[1..], offset + |records[0].nameBytes|)
  }

  /** The record array of a + b: a's records, then b's records with their bytes after a's, at `after`. */
  lemma {:induction false} RecordAreaConcat(a: seq<NameRecord>, b: seq<NameRecord>, offset: nat, after: nat)
    requires after == offset + StringsLength(a)
    ensures RecordArea(a + b, offset) == RecordArea(a, offset) + RecordArea(b, after)
  {
    if |a| == 0 {
      assert a + b == b;
    } else {
      var next := offset + |a[0].nameBytes|;
      var tail := RecordArea(b, after);
      RecordAreaConcat(a[1..], b, next, after);
      RecordAreaUnfold(a + b, offset, a[0], a[1..] + b, next);
      RecordAreaUnfold(a, offset, a[0], a[1..], next);
      Assoc(RecordImage(a[0], offset), RecordArea(a[1..], next), tail);
    }
  }

  /** `RecordArea` of a non-empty list, with its first record and the rest named. */
  lemma {:induction false} RecordAreaUnfold(records: seq<NameRecord>, offset: nat, head: NameRecord, rest: seq<NameRecord>, next: nat)
    requires |records| > 0 && head == records[0] && rest == records[1..] && next == offset + |head.nameBytes|
    ensures RecordArea(records, offset) == RecordImage(head, offset) + RecordArea(rest, next)
  {
  }

  /** The string area and the record array of a list grown by one record. */
  lemma {:induction false} GrowBy(pre: seq<NameRecord>, r: NameRecord, whole: seq<NameRecord>)
    requires whole == pre + [r]
    ensures Strings(whole) == Strings(pre) + r.nameBytes
    ensures RecordArea(whole, 0) == RecordArea(pre, 0) + RecordImage(r, StringsLength(pre))
  {
    StringsConcat(pre, [r]);
    RecordAreaConcat(pre, [r], 0, StringsLength(pre));
    assert [r][1..] == [];
    AppendEmpty(r.nameBytes);
    AppendEmpty(RecordImage(r, StringsLength(pre)));
  }

  /** `GrowBy` at the k-th prefix of a list. */
  lemma {:induction false} GrowAt(records: seq<NameRecord>, k: nat)
    requires 0 < k <= |records|
    ensures Strings(records[..k]) == Strings(records[..k - 1]) + records[k - 1].nameBytes
    ensures RecordArea(records[..k], 0) == RecordArea(records[..k - 1], 0) + RecordImage(records[k - 1], StringsLength(records[..k - 1]))
  {
    assert records[..k] == records[..k - 1] + [records[k - 1]];
    GrowBy(records[..k - 1], records[k - 1], records[..k]);
  }

  /** The table as it is meant to be: header, record array, string area. */
  function Image(n: NameData): (s: seq<byte>)
    ensures |s| == GetSize(n)
  {
    HeaderImage(WrittenHeader(n)) + RecordArea(n.records, 0) + Strings(n.records)
  }

  /** Record i's bytes and its record image both lie inside the table's slice. */
  lemma {:induction false} PlacedFits(n: NameData, i: nat)
    requires i < |n.records|
    ensures WrittenHeader(n).stringOffset + StringsLength(n.records[..i]) + |n.records[i].nameBytes| <= GetSize(n)
    ensures 6 + 12 * i + 12 <= GetSize(n)
  {
    StringsSnoc(n.records, i);
    StringsPrefix(n.records, i + 1);
  }

  /**
   * The destination after the header and the first k turns of `Serialize`'s
   * loop: turn i copies record i's bytes into the string area at the running
   * cursor, then writes its record image at 6 + 12 i with that cursor as
   * its offset.
   */
  function Placed(n: NameData, dest: seq<byte>, k: nat): (d: seq<byte>)
    requires |dest| == GetSize(n) && k <= |n.records|
    ensures |d| == |dest|
    decreases k
  {
    if k == 0 then Overwrite(dest, 0, HeaderImage(WrittenHeader(n)))
    else
      var i := k - 1;
      var cursor := StringsLength(n.records[..i]);
      PlacedFits(n, i);
      Overwrite(Overwrite(Placed(n, dest, i), WrittenHeader(n).stringOffset + cursor, n.records[i].nameBytes),
        6 + 12 * i, RecordImage(n.records[i], cursor))
  }

  /**
   * `Serialize` into the table's slice of the font file: the header, then
   * for each of the `(ushort)Records.Count` records its bytes and its
   * record image; returns the header it stores back into the table.
   */
  method Serialize(n: NameData, dest: array<byte>) returns (header: NameHeader)
    requires dest.Length == GetSize(n)
    modifies dest
    ensures header == WrittenHeader(n)
    ensures dest[..] == Placed(n, old(dest[..]), |n.records| % 0x1_0000)
  {
    LayoutSizes();
    var recordCount := |n.records| % 0x1_0000;
    header := NameHeader(0, recordCount, (6 + 12 * recordCount) % 0x1_0000);
    assert header == WrittenHeader(n);
    ghost var start := dest[..];
    ByteArrays.OverwriteInto(dest, 0, FixedTable.Serialize(HeaderLayout, HeaderRow(header)));
    var stringCursor := 0;
    var i := 0;
    while i < recordCount
      invariant 0 <= i <= recordCount && stringCursor == StringsLength(n.records[..i])
      invariant dest[..] == Placed(n, start, i)
    {
      var k := i + 1;
      assert k - 1 == i;
      WriteRecord(n, dest, k, header, stringCursor, start);
      StringsSnoc(n.records, i);
      stringCursor := stringCursor + |n.records[i].nameBytes|;
      i := i + 1;
    }
  }

  /**
   * Turn k of `Serialize`'s loop: record k - 1's bytes into the string area
   * at the cursor, then its record image at 6 + 12 (k - 1).
   */
  method WriteRecord(n: NameData, dest: array<byte>, k: nat, header: NameHeader, stringCursor: nat, ghost start: seq<byte>)
    requires dest.Length == GetSize(n) && |start| == GetSize(n) && 0 < k <= |n.records|
    requires header == WrittenHeader(n) && stringCursor == StringsLength(n.records[..k - 1])
    requires dest[..] == Placed(n, start, k - 1)
    modifies dest
    ensures dest[..] == Placed(n, start, k)
  {
    LayoutSizes();
    var record := n.records[k - 1];
    var nameBytes := record.nameBytes;
    PlacedFits(n, k - 1);
    var at := header.stringOffset as int + stringCursor;
    ByteArrays.OverwriteInto(dest, at, nameBytes);
    var row := [record.platformId as int, record.platformSpecificId as int, record.languageId as int,
                record.nameId as int, |nameBytes| % 0x1_0000, stringCursor % 0x1_0000];
    assert row == RowAt(record, stringCursor);
    ByteArrays.OverwriteInto(dest, 6 + 12 * (k - 1), FixedTable.Serialize(RecordLayout, row));
    PlacedNext(n, start, k, at, 6 + 12 * (k - 1), nameBytes, RecordImage(record, stringCursor));
  }

  /** Writing nothing changes nothing. */
  lemma {:induction false} OverwriteEmpty(d: seq<byte>, at: nat)
    requires at <= |d|
    ensures Overwrite(d, at, []) == d
  {
  }

  /**
   * With 16-bit offsets exact, the first k turns have laid the header and
   * the first k record images from the start, and the first k records'
   * bytes from the string area's offset.
   */
  lemma {:induction false} PlacedLaid(n: NameData, dest: seq<byte>, k: nat, h: seq<byte>, so: nat)
    requires Fits16(n) && |dest| == GetSize(n) && k <= |n.records|
    requires h == HeaderImage(WrittenHeader(n)) && so == 6 + 12 * |n.records|
    ensures so + StringsLength(n.records[..k]) <= |dest|
    ensures Placed(n, dest, k) == Overwrite(Overwrite(dest, 0, h + RecordArea(n.records[..k], 0)), so, Strings(n.records[..k]))
    decreases k
  {
    if k == 0 {
      PlacedBase(n, dest, k, h, so);
    } else {
      PlacedLaid(n, dest, k - 1, h, so);
      PlacedStep(n, dest, k, h, so, h + RecordArea(n.records[..k - 1], 0), Strings(n.records[..k - 1]),
        RecordImage(n.records[k - 1], StringsLength(n.records[..k - 1])));
    }
  }

  /** Before the loop only the header is laid. */
  lemma {:induction false} PlacedBase(n: NameData, dest: seq<byte>, k: nat, h: seq<byte>, so: nat)
    requires Fits16(n) && |dest| == GetSize(n) && k == 0
    requires h == HeaderImage(WrittenHeader(n)) && so == 6 + 12 * |n.records|
    ensures so + StringsLength(n.records[..k]) <= |dest|
    ensures Placed(n, dest, k) == Overwrite(Overwrite(dest, 0, h + RecordArea(n.records[..k], 0)), so, Strings(n.records[..k]))
  {
    assert n.records[..k] == [];
    AppendEmpty(h);
    OverwriteEmpty(Overwrite(dest, 0, h), so);
  }

  /** Two writes side by side in each of two windows, made in the loop's order, are one write per window. */
  lemma {:induction false} TurnShape(dest: seq<byte>, front: seq<byte>, row: seq<byte>, so: nat, s: seq<byte>, b: seq<byte>)
    requires |front| + |row| <= so && so + |s| + |b| <= |dest|
    ensures Overwrite(Overwrite(Overwrite(Overwrite(dest, 0, front), so, s), so + |s|, b), |front|, row) ==
      Overwrite(Overwrite(dest, 0, front + row), so, s + b)
  {
    var a := Overwrite(dest, 0, front);
    OverwriteConcat(a, so, s, b);
    OverwriteCommute(a, |front|, row, so, s + b);
    OverwriteConcat(dest, 0, front, row);
  }

  /** Turn k of the loop keeps `PlacedLaid`'s picture. */
  lemma {:induction false} PlacedStep(n: NameData, dest: seq<byte>, k: nat, h: seq<byte>, so: nat,
                                      front: seq<byte>, s: seq<byte>, row: seq<byte>)
    requires Fits16(n) && |dest| == GetSize(n) && 0 < k <= |n.records|
    requires h == HeaderImage(WrittenHeader(n)) && so == 6 + 12 * |n.records|
    requires front == h + RecordArea(n.records[..k - 1], 0) && s == Strings(n.records[..k - 1])
    requires row == RecordImage(n.records[k - 1], StringsLength(n.records[..k - 1]))
    requires so + |s| <= |dest| && Placed(n, dest, k - 1) == Overwrite(Overwrite(dest, 0, front), so, s)
    ensures so + StringsLength(n.records[..k]) <= |dest|
    ensures Placed(n, dest, k) ==
      Overwrite(Overwrite(dest, 0, h + RecordArea(n.records[..k], 0)), so, Strings(n.records[..k]))
  {
    var b := n.records[k - 1].nameBytes;
    StringsPrefix(n.records, k);
    PlacedFits(n, k - 1);
    GrowAt(n.records, k);
    PlacedTurn(n, dest, k, h, so, RecordArea(n.records[..k - 1], 0), RecordArea(n.records[..k], 0),
      s, Strings(n.records[..k]), b, row);
  }

  /** Turn k of the loop, with the grown record array and string area named. */
  lemma {:induction false} PlacedTurn(n: NameData, dest: seq<byte>, k: nat, h: seq<byte>, so: nat,
                                      ra: seq<byte>, ra': seq<byte>, s: seq<byte>, s': seq<byte>, b: seq<byte>, row: seq<byte>)
    requires |dest| == GetSize(n) && 0 < k <= |n.records|
    requires so + |s| == WrittenHeader(n).stringOffset + StringsLength(n.records[..k - 1]) && |h + ra| == 6 + 12 * (k - 1)
    requires b == n.records[k - 1].nameBytes && row == RecordImage(n.records[k - 1], StringsLength(n.records[..k - 1]))
    requires ra' == ra + row && s' == s + b
    requires |h| + |ra| + |row| <= so && so + |s| + |b| <= |dest|
    requires Placed(n, dest, k - 1) == Overwrite(Overwrite(dest, 0, h + ra), so, s)
    ensures Placed(n, dest, k) == Overwrite(Overwrite(dest, 0, h + ra'), so, s')
  {
    PlacedNext(n, dest, k, so + |s|, |h + ra|, b, row);
    TurnLaid(dest, h, ra, ra', s, s', b, row, so, Placed(n, dest, k - 1), Placed(n, dest, k));
  }

  /** `TurnShape` with the grown record array and string area named. */
  lemma {:induction false} TurnLaid(dest: seq<byte>, h: seq<byte>, ra: seq<byte>, ra': seq<byte>, s: seq<byte>, s': seq<byte>,
                                    b: seq<byte>, row: seq<byte>, so: nat, p: seq<byte>, p': seq<byte>)
    requires ra' == ra + row && s' == s + b
    requires |h| + |ra| + |row| <= so && so + |s| + |b| <= |dest|
    requires p == Overwrite(Overwrite(dest, 0, h + ra), so, s)
    requires p' == Overwrite(Overwrite(p, so + |s|, b), |h + ra|, row)
    ensures p' == Overwrite(Overwrite(dest, 0, h + ra'), so, s')
  {
    Assoc(h, ra, row);
    TurnShape(dest, h + ra, row, so, s, b);
  }

  /** `Placed` one turn further, with the turn's two places and images given. */
  lemma {:induction false} PlacedNext(n: NameData, dest: seq<byte>, k: nat, at: nat, p: nat, b: seq<byte>, row: seq<byte>)
    requires |dest| == GetSize(n) && 0 < k <= |n.records|
    requires at == WrittenHeader(n).stringOffset + StringsLength(n.records[..k - 1]) && p == 6 + 12 * (k - 1)
    requires b == n.records[k - 1].nameBytes && row == RecordImage(n.records[k - 1], StringsLength(n.records[..k - 1]))
    requires at + |b| <= |dest| && p + 12 <= |dest|
    ensures Placed(n, dest, k) == Overwrite(Overwrite(Placed(n, dest, k - 1), at, b), p, row)
  {
  }

  /**
   * When the table fits 16-bit offsets, `Serialize` writes every record and
   * leaves its slice holding exactly `Image(n)`, whatever it held before.
   */
  lemma {:induction false} SerializeImage(n: NameData, dest: seq<byte>)
    requires Fits16(n) && |dest| == GetSize(n)
    ensures Placed(n, dest, |n.records| % 0x1_0000) == Image(n)
  {
    var recs := n.records;
    PlacedLaid(n, dest, |recs|, HeaderImage(WrittenHeader(n)), 6 + 12 * |recs|);
    assert recs[..|recs|] == recs;
    var front := HeaderImage(WrittenHeader(n)) + RecordArea(recs, 0);
    OverwriteConcat(dest, 0, front, Strings(recs));
    OverwriteWhole(dest, front + Strings(recs));
  }

  // ------------------------------------------------ Deserialize

  /** A record's bytes: `stringsSlice.Slice(offset, length)`. */
  function RecordFrom(v: seq<int>, strings: seq<byte>): (res: Result<NameRecord>)
    requires Conforms(RecordLayout, v)
    ensures res.Ok? <==> v[5] + v[4] <= |strings|
  {
    var offset, length := v[5], v[4];
    if offset + length > |strings| then Err(ArgumentOutOfRange)
    else Ok(NameRecord(v[0], v[1], v[2], v[3], strings[offset..offset + length]))
  }

  /** One pass of the reading loop: a record at the cursor, with its bytes taken from the string area. */
  function ReadEntry(r: BufferReaders.Reader, strings: seq<byte>): (res: Result<(NameRecord, BufferReaders.Reader)>)
    ensures res.Ok? ==> res.value.1 == BufferReaders.Advance(r, 12)
  {
    LayoutSizes();
    var x :- FixedTable.Deserialize(r, RecordLayout);
    var record :- RecordFrom(x.0, strings);
    Ok((record, x.1))
  }

  /** The body of the reading loop, with the string area it takes bytes from. */
  function EntryReader(strings: seq<byte>): BufferReaders.Reader -> Result<(NameRecord, BufferReaders.Reader)>
  {
    (r: BufferReaders.Reader) => ReadEntry(r, strings)
  }

  /** `Deserialize`: the header, the string area from stringOffset on, then header.count records. */
  function Deserialize(r: BufferReaders.Reader): Result<(NameData, BufferReaders.Reader)>
  {
    var h :- FixedTable.Deserialize(r, HeaderLayout);
    var header := NameHeader(h.0[0], h.0[1], h.0[2]);
    var stringsReader :- BufferReaders.SliceFromStart(h.1, header.stringOffset);
    var strings :- BufferReaders.ReadBytesAsPossible(stringsReader);
    var records :- BufferReaders.ReadMany(h.1, header.count, EntryReader(strings.0));
    Ok((NameData(header, records.0), records.1))
  }

  /** A record image at p, with its bytes where its row says, reads back as the record. */
  lemma {:induction false} EntryFrom(img: seq<byte>, strings: seq<byte>, p: nat, row: seq<int>, record: NameRecord)
    requires Conforms(RecordLayout, row) && p + 12 <= |img|
    requires img[p..p + 12] == FixedTable.Serialize(RecordLayout, row)
    requires RecordFrom(row, strings) == Ok(record)
    ensures EntryReader(strings)(BufferReaders.Reader(img, p)) == Ok((record, BufferReaders.Reader(img, p + 12)))
  {
    LayoutSizes();
    FixedTable.RoundTrip(BufferReaders.Reader(img, p), RecordLayout, row);
  }

  /**
   * A record array written for bytes at offset, read at base with a string
   * area holding those bytes at offset, reads back as the records and stops
   * right after the array.
   */
  lemma {:induction false} ReadArea(img: seq<byte>, base: nat, end: nat, records: seq<NameRecord>, offset: nat, strings: seq<byte>)
    requires offset + StringsLength(records) < 0x1_0000
    requires end == base + 12 * |records| && end <= |img| && img[base..end] == RecordArea(records, offset)
    requires offset + StringsLength(records) <= |strings|
    requires strings[offset..offset + StringsLength(records)] == Strings(records)
    ensures BufferReaders.ReadMany(BufferReaders.Reader(img, base), |records|, EntryReader(strings)) ==
      Ok((records, BufferReaders.Reader(img, end)))
    decreases |records|
  {
    if |records| > 0 {
      var r, rest := records[0], records[1..];
      var next := offset + |r.nameBytes|;
      ReadAreaHead(img, base, end, records, offset, strings, next);
      ReadArea(img, base + 12, end, rest, next, strings);
      BufferReaders.ReadManyCons(BufferReaders.Reader(img, base), EntryReader(strings),
        (r, BufferReaders.Reader(img, base + 12)), rest, BufferReaders.Reader(img, end));
      assert records == [r] + rest;
    }
  }

  /** The first record of `ReadArea` reads back, and the rest of the array and string area are as `ReadArea` needs. */
  lemma {:induction false} ReadAreaHead(img: seq<byte>, base: nat, end: nat, records: seq<NameRecord>, offset: nat,
                                        strings: seq<byte>, next: nat)
    requires |records| > 0 && next == offset + |records[0].nameBytes|
    requires offset + StringsLength(records) < 0x1_0000
    requires end == base + 12 * |records| && end <= |img| && img[base..end] == RecordArea(records, offset)
    requires offset + StringsLength(records) <= |strings|
    requires strings[offset..offset + StringsLength(records)] == Strings(records)
    ensures EntryReader(strings)(BufferReaders.Reader(img, base)) == Ok((records[0], BufferReaders.Reader(img, base + 12)))
    ensures next + StringsLength(records[1..]) == offset + StringsLength(records)
    ensures img[base + 12..end] == RecordArea(records[1..], next)
    ensures strings[next..next + StringsLength(records[1..])] == Strings(records[1..])
  {
    LayoutSizes();
    var r, rest := records[0], records[1..];
    var row := RowAt(r, offset);
    SplitWindow(img, base, base + 12, end, RecordImage(r, offset), RecordArea(rest, next));
    SplitWindow(strings, offset, next, offset + StringsLength(records), r.nameBytes, Strings(rest));
    EntryFrom(img, strings, base, row, r);
  }

  /** The header record at the start of img reads back and leaves the cursor at 6. */
  lemma {:induction false} HeaderRead(img: seq<byte>, h: NameHeader)
    requires 6 <= |img| && img[..6] == HeaderImage(h)
    ensures FixedTable.Deserialize(BufferReaders.Fresh(img), HeaderLayout) ==
      Ok((HeaderRow(h), BufferReaders.Reader(img, 6)))
  {
    LayoutSizes();
    assert img[0..6] == img[..6];
    FixedTable.RoundTrip(BufferReaders.Fresh(img), HeaderLayout, HeaderRow(h));
  }

  /** The string area read from stringOffset on is the tail of img. */
  lemma {:induction false} StringsRead(img: seq<byte>, offset: nat, strings: seq<byte>)
    requires offset <= |img| && img[offset..] == strings
    ensures BufferReaders.SliceFromStart(BufferReaders.Reader(img, 6), offset) == Ok(BufferReaders.Fresh(strings))
    ensures BufferReaders.ReadBytesAsPossible(BufferReaders.Fresh(strings)) ==
      Ok((strings, BufferReaders.Reader(strings, |strings|)))
  {
    assert strings[0..] == strings;
  }

  /** Deserialize put together from its three reads. */
  lemma {:induction false} DeserializeOf(img: seq<byte>, h: NameHeader, strings: seq<byte>, records: seq<NameRecord>)
    requires 6 <= |img| && img[..6] == HeaderImage(h)
    requires h.stringOffset <= |img| && img[h.stringOffset..] == strings
    requires h.count == |records|
    requires BufferReaders.ReadMany(BufferReaders.Reader(img, 6), |records|, EntryReader(strings)) ==
      Ok((records, BufferReaders.Reader(img, 6 + 12 * |records|)))
    ensures Deserialize(BufferReaders.Fresh(img)) ==
      Ok((NameData(h, records), BufferReaders.Reader(img, 6 + 12 * |records|)))
  {
    HeaderRead(img, h);
    StringsRead(img, h.stringOffset, strings);
  }

  /** Deserialize over a header image, the record array and the string area laid end to end. */
  lemma {:induction false} DeserializeParts(img: seq<byte>, h: NameHeader, records: seq<NameRecord>)
    requires 6 + 12 * |records| + StringsLength(records) < 0x1_0000
    requires img == HeaderImage(h) + RecordArea(records, 0) + Strings(records)
    requires h.count == |records| && h.stringOffset == 6 + 12 * |records|
    ensures Deserialize(BufferReaders.Fresh(img)) ==
      Ok((NameData(h, records), BufferReaders.Reader(img, 6 + 12 * |records|)))
  {
    LayoutSizes();
    var strings := Strings(records);
    var end := 6 + 12 * |records|;
    Parts3(img, HeaderImage(h), RecordArea(records, 0), strings, 6, end);
    assert strings[0..StringsLength(records)] == strings;
    ReadArea(img, 6, end, records, 0, strings);
    DeserializeOf(img, h, strings, records);
  }

  /**
   * Parsing the serialized table restores the stored header and every
   * record's ids and bytes; the cursor ends after the record array.
   */
  lemma {:induction false} RoundTrip(n: NameData)
    requires Fits16(n)
    ensures Deserialize(BufferReaders.Fresh(Image(n))) ==
      Ok((NameData(WrittenHeader(n), n.records), BufferReaders.Reader(Image(n), 6 + 12 * |n.records|)))
  {
    DeserializeParts(Image(n), WrittenHeader(n), n.records);
  }
}
