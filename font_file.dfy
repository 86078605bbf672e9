/**
 * `TrueTypeFont` (`src/TrueType/TrueTypeFont.cs`): the font as a list of
 * tables.  `Deserialize` reads the offset subtable and the table directory,
 * checks every entry's checksum and hands each table its bytes in
 * dependency order; `Validate` sorts the list by tag and validates the
 * tables in dependency order; `GetSize` and `Serialize` lay the file out as
 * module FontLayout describes.
 */
module FontFile {
  import opened Bytes
  import opened Wrappers
  import opened Checksums
  import opened FontLayout
  import opened FontImage
  import opened FontTags
  import opened Dependencies
  import opened Sorting

  // ------------------------------------------------------------ reading the directory

  /** Entry i, read from the font and checked by `ValidateChecksum`; the slice throws when the entry is cut off. */
  function EntryAt(font: seq<byte>, i: nat): Result<Entry>
  {
    if EntryOffset(i) + 16 > |font| then Err(ArgumentOutOfRange)
    else
      var e := ReadEntry(font, EntryOffset(i));
      match ValidateChecksum(font, e)
      case Err(x) => Err(x)
      case Ok(_) => Ok(e)
  }

  /** The turns of the directory loop, one entry each. */
  function EntryReads(font: seq<byte>): (f: nat --> Result<Entry>)
    ensures forall i: nat :: f.requires(i) && f(i) == EntryAt(font, i)
  {
    (i: nat) => EntryAt(font, i)
  }

  /** The first n entries, read in order; the first entry that fails stops the loop with its error. */
  function Entries(font: seq<byte>, n: nat): (r: Result<seq<Entry>>)
    ensures r.Ok? ==> |r.value| == n
  {
    Gather(EntryReads(font), n)
  }

  /** The directory `Deserialize` reads: `numTables` entries after the 12-byte offset subtable. */
  function Directory(font: seq<byte>): Result<seq<Entry>>
  {
    if |font| < 12 then Err(ArgumentOutOfRange) else Entries(font, U16At(font, 4))
  }

  /**
   * The directory reads back exactly when the font holds the offset
   * subtable and `numTables` whole entries that each pass `ValidateChecksum`.
   */
  lemma {:induction false} DirectoryMeans(font: seq<byte>, es: seq<Entry>)
    ensures Directory(font) == Ok(es) <==>
            && 12 <= |font| && |es| == U16At(font, 4)
            && forall i :: 0 <= i < |es| ==>
                 && EntryOffset(i) + 16 <= |font| && es[i] == ReadEntry(font, EntryOffset(i))
                 && ValidateChecksum(font, es[i]) == Ok(())
  {
    if 12 <= |font| {
      var n := U16At(font, 4);
      if Directory(font) == Ok(es) {
        GatherEach(EntryReads(font), n, es);
      }
      if |es| == n && forall i :: 0 <= i < n ==> EntryAt(font, i) == Ok(es[i]) {
        GatherWhole(EntryReads(font), es);
      }
    }
  }

  /** One turn of the directory loop: the entry's slice, its fields and its checksum. */
  method ReadEntryAt(font: seq<byte>, i: nat) returns (res: Result<Entry>)
    ensures res == EntryAt(font, i)
  {
    var entryOffset := 12 + i * 16;
    if entryOffset + 16 > |font| {
      return Err(ArgumentOutOfRange);
    }
    var e := ReadEntry(font, entryOffset);
    var checked := ValidateChecksum(font, e);
    if checked.Err? {
      return Err(checked.error);
    }
    return Ok(e);
  }

  /** The offset subtable, then the first loop of `Deserialize`. */
  method ReadDirectory(font: seq<byte>) returns (res: Result<seq<Entry>>)
    ensures res == Directory(font)
  {
    if |font| < 12 {
      return Err(ArgumentOutOfRange);
    }
    res := ReadEntries(font, U16At(font, 4));
  }

  /** The first loop of `Deserialize`: read and check the entries one by one. */
  method ReadEntries(font: seq<byte>, n: nat) returns (res: Result<seq<Entry>>)
    ensures res == Entries(font, n)
  {
    var entries: seq<Entry> := [];
    ghost var f := EntryReads(font);
    for i := 0 to n
      invariant Gather(f, i) == Ok(entries)
    {
      var e := ReadEntryAt(font, i);
      GatherStep(f, i, n, entries, e);
      if e.Err? {
        return Err(e.error);
      }
      entries := entries + [e.value];
    }
    return Ok(entries);
  }

  // ------------------------------------------------------------ handing tables their bytes

  /** `DeserializeTable`'s `font.Slice((int)(uint)offset, (int)(uint)length)`, which throws outside the font. */
  function TableBytes(font: seq<byte>, e: Entry): Result<seq<byte>>
  {
    var offset, length := AsInt(e.offset), AsInt(e.length);
    if offset < 0 || length < 0 || offset + length > |font| then Err(ArgumentOutOfRange)
    else Ok(font[offset..offset + length])
  }

  /**
   * After its checksum passed, an entry's bytes can be sliced unless its
   * length is one of the six largest 32-bit values, whose padded size wraps
   * to an empty window in the check and to a negative length in the slice.
   */
  lemma {:induction false} CheckedBytes(font: seq<byte>, e: Entry)
    requires ValidateChecksum(font, e).Ok?
    ensures TableBytes(font, e).Ok? <==> e.length < 0xFFFF_FFFA
    ensures TableBytes(font, e).Ok? ==> TableBytes(font, e).value == font[e.offset..e.offset + e.length]
  {
    SliceFits(|font|, e.offset, e.length);
  }

  /** The slice bounds, given the bounds the checksum check passed. */
  lemma {:induction false} SliceFits(size: nat, offset: u32, length: u32)
    requires 0 <= AsInt(offset) && 0 <= CheckedSize(length) && AsInt(offset) + CheckedSize(length) <= size
    ensures (AsInt(length) >= 0 && AsInt(offset) + AsInt(length) <= size) <==> length < 0xFFFF_FFFA
    ensures length < 0xFFFF_FFFA ==> AsInt(offset) == offset && AsInt(length) == length
  {
    CheckedSizeCases(length);
    Round4Bounds(length);
  }

  /** A table as the walk loads it: the kind `CreateTableInstance` makes and the bytes it is given. */
  datatype Loaded = Loaded(kind: Kind, bytes: seq<byte>)

  /**
   * The walk's view of an entry: its kind, that kind's deserialization
   * dependencies, and what its own step throws, either the slice or the
   * table's own `Deserialize` (`parse`, modelled table by table in the table
   * modules).
   */
  function LoadNode(font: seq<byte>, e: Entry, parse: (Kind, seq<byte>) -> Option<Error>): Node<Kind>
  {
    var k := KindOf(e.tag);
    Node(k, DeserializationDependencies(k),
         match TableBytes(font, e)
         case Err(x) => Some(x)
         case Ok(b) => parse(k, b))
  }

  function LoadNodes(font: seq<byte>, es: seq<Entry>, parse: (Kind, seq<byte>) -> Option<Error>): (ns: seq<Node<Kind>>)
    ensures |ns| == |es| && forall i :: 0 <= i < |es| ==> ns[i] == LoadNode(font, es[i], parse)
  {
    seq(|es|, i requires 0 <= i < |es| => LoadNode(font, es[i], parse))
  }

  function LoadedOf(font: seq<byte>, e: Entry): Loaded
  {
    Loaded(KindOf(e.tag), match TableBytes(font, e) case Ok(b) => b case Err(_) => [])
  }

  /**
   * `Deserialize`: the directory, then the walk that loads every table
   * after the tables it depends on; the tables in the order they were
   * loaded, which is the order of the font's `Tables`.
   */
  method Deserialize(font: seq<byte>, parse: (Kind, seq<byte>) -> Option<Error>) returns (res: Result<seq<Loaded>>, order: seq<nat>)
    ensures Directory(font).Err? ==> res == Err(Directory(font).error)
    ensures Directory(font).Ok? && res.Err? ==> Failed(LoadNodes(font, Directory(font).value, parse), res.error)
    ensures res.Ok? ==> && Directory(font).Ok?
                        && Processes(LoadNodes(font, Directory(font).value, parse), order)
                        && |res.value| == |order|
                        && forall p :: 0 <= p < |order| ==>
                             order[p] < |Directory(font).value| && res.value[p] == LoadedOf(font, Directory(font).value[order[p]])
  {
    var dir := ReadDirectory(font);
    if dir.Err? {
      return Err(dir.error), [];
    }
    var es := dir.value;
    var walk := Resolve(LoadNodes(font, es, parse));
    if walk.Err? {
      return Err(walk.error), [];
    }
    order := walk.value;
    assert forall p :: 0 <= p < |order| ==> order[p] < |es|;
    res := Ok(seq(|order|, p requires 0 <= p < |order| => LoadedOf(font, es[order[p]])));
  }

  /** Every table the walk loads was sliced without error: it holds exactly its entry's bytes. */
  lemma {:induction false} LoadedBytes(font: seq<byte>, es: seq<Entry>, parse: (Kind, seq<byte>) -> Option<Error>, order: seq<nat>, p: nat)
    requires Processes(LoadNodes(font, es, parse), order) && p < |order|
    ensures order[p] < |es| && TableBytes(font, es[order[p]]) == Ok(LoadedOf(font, es[order[p]]).bytes)
  {
  }

  /** Neither walk can report a cycle: every dependency is of a kind that ranks lower. */
  lemma {:induction false} LoadAcyclic(font: seq<byte>, es: seq<Entry>, parse: (Kind, seq<byte>) -> Option<Error>)
    ensures !HasCycle(LoadNodes(font, es, parse))
  {
    var ns := LoadNodes(font, es, parse);
    forall i, d | 0 <= i < |ns| && d in ns[i].deps
      ensures DeserializationRank(d) < DeserializationRank(ns[i].kind)
    {
      DeserializationRanked(ns[i].kind, d);
    }
    RankedAcyclic(ns, DeserializationRank);
  }

  // ------------------------------------------------------------ reading back a written file

  /**
   * The directory of a file `Serialize` wrote reads back: one entry per
   * table, in order, with its tag, offset and length (the count is cast to
   * 16 bits, so all of them when there are fewer than 65536).
   */
  lemma {:induction false} FileDirectory(d: seq<byte>, ts: seq<TableImage>)
    requires Fits(ts, |d|)
    ensures var f := Assembled(d, ts);
            var r := Directory(f);
            && r.Ok? && |r.value| == |ts| % 0x1_0000 <= |ts|
            && forall i :: 0 <= i < |r.value| ==>
                 && EntryOffset(i) + 16 <= |f| && r.value[i] == ReadEntry(f, EntryOffset(i))
                 && r.value[i].tag == ts[i].tag && r.value[i].offset == OffsetOf(ts, i)
                 && r.value[i].length == |ts[i].image|
  {
    var f := Assembled(d, ts);
    var n := |ts| % 0x1_0000;
    FileHeader(d, ts);
    CountBelow(|ts|, n);
    var es := seq(n, i requires 0 <= i < n => ReadEntry(f, EntryOffset(i)));
    forall i | 0 <= i < n
      ensures EntryAt(f, i) == Ok(es[i]) && EntryOffset(i) + 16 <= |f|
      ensures es[i].tag == ts[i].tag && es[i].offset == OffsetOf(ts, i) && es[i].length == |ts[i].image|
    {
      FileEntryAt(d, ts, i, f);
    }
    assert Directory(f) == Ok(es) by {
      GatherWhole(EntryReads(f), es);
    }
  }

  /** The 16-bit table count never exceeds the number of tables. */
  lemma {:induction false} CountBelow(count: nat, n: nat)
    requires n == count % 0x1_0000
    ensures n <= count
  {
  }

  /** One entry of a written file passes the directory loop. */
  lemma {:induction false} FileEntryAt(d: seq<byte>, ts: seq<TableImage>, i: nat, f: seq<byte>)
    requires Fits(ts, |d|) && i < |ts| && f == Assembled(d, ts)
    ensures var e := ReadEntry(f, EntryOffset(i));
            && EntryAt(f, i) == Ok(e)
            && e.tag == ts[i].tag && e.offset == OffsetOf(ts, i) && e.length == |ts[i].image|
  {
    FileEntry(d, ts, i);
  }

  /** An entry that lies inside the font is handed the bytes it names. */
  lemma {:induction false} EntryBytes(f: seq<byte>, e: Entry, a: nat, n: nat)
    requires e.offset == a && e.length == n && a + n <= |f| < 0x8000_0000
    ensures TableBytes(f, e) == Ok(f[a..a + n])
  {
  }

  /**
   * Each table of a written file is handed back its own bytes; a head
   * table's with the third word the file holds.
   */
  lemma {:induction false} FileTableBytes(d: seq<byte>, ts: seq<TableImage>, i: nat)
    requires Fits(ts, |d|) && i < |ts|
    ensures var f, a := Assembled(d, ts), OffsetOf(ts, i);
            && a + |ts[i].image| <= |f|
            && (!IsHeadTag(ts[i].tag) ==> TableBytes(f, ReadEntry(f, EntryOffset(i))) == Ok(ts[i].image))
            && (IsHeadTag(ts[i].tag) ==>
                  && |ts[i].image| >= 12
                  && TableBytes(f, ReadEntry(f, EntryOffset(i))) == Ok(Overwrite(ts[i].image, 8, f[a + 8..a + 12])))
  {
    var f, a, n := Assembled(d, ts), OffsetOf(ts, i), |ts[i].image|;
    FileTable(d, ts, i);
    assert TableBytes(f, ReadEntry(f, EntryOffset(i))) == Ok(f[a..a + n]) by {
      FileEntry(d, ts, i);
      EntryBytes(f, ReadEntry(f, EntryOffset(i)), a, n);
    }
  }

  // ------------------------------------------------------------ the font object

  /**
   * A table as the font handles it: its tag, the bytes its own `Serialize`
   * writes as the table stands (their count is its `GetSize`), and the
   * outcome of its own `Validate` in this font: the error it throws, or
   * the bytes the table writes once `Validate` has updated it (both
   * modelled in the table modules).
   */
  datatype FontTable = FontTable(tag: u32, image: seq<byte>, validated: Result<seq<byte>>)

  /** What `Validate` throws for a table, if anything. */
  function Failure(t: FontTable): (f: Option<Error>)
    ensures f.None? <==> t.validated.Ok?
    ensures f.Some? ==> t.validated == Err(f.value)
  {
    if t.validated.Err? then Some(t.validated.error) else None
  }

  /** The table once its own `Validate` has run: it writes the validated bytes. */
  function Settle(t: FontTable): FontTable
  {
    if t.validated.Ok? then t.(image := t.validated.value) else t
  }

  function Settled(ts: seq<FontTable>): (r: seq<FontTable>)
    ensures |r| == |ts| && forall i :: 0 <= i < |ts| ==> r[i] == Settle(ts[i])
  {
    seq(|ts|, i requires 0 <= i < |ts| => Settle(ts[i]))
  }

  /**
   * Validating a table keeps its tag and its outcome, so the settled list
   * is sorted and checked exactly as the list it came from; after a walk
   * that processed every table, each table writes its validated bytes.
   */
  lemma {:induction false} SettledKeeps(ts: seq<FontTable>, order: seq<nat>)
    requires Processes(CheckNodes(ts), order)
    ensures CheckNodes(Settled(ts)) == CheckNodes(ts)
    ensures SortedBy(ts, TagKey) ==> SortedBy(Settled(ts), TagKey)
    ensures forall i :: 0 <= i < |ts| ==> Settled(ts)[i].validated == Ok(Settled(ts)[i].image) && Settled(ts)[i].tag == ts[i].tag
  {
    var ns := CheckNodes(ts);
    forall i | 0 <= i < |ts|
      ensures ts[i].validated.Ok?
    {
      assert i in order;
      var p :| 0 <= p < |order| && order[p] == i;
      assert ns[order[p]].failure.None?;
    }
  }

  /** The comparison `Validate` sorts by: the tag as an unsigned number. */
  function TagKey(t: FontTable): int
  {
    t.tag
  }

  function CheckNode(t: FontTable): Node<Kind>
  {
    Node(KindOf(t.tag), ValidationDependencies(KindOf(t.tag)), Failure(t))
  }

  function CheckNodes(ts: seq<FontTable>): (ns: seq<Node<Kind>>)
    ensures |ns| == |ts| && forall i :: 0 <= i < |ts| ==> ns[i] == CheckNode(ts[i])
  {
    seq(|ts|, i requires 0 <= i < |ts| => CheckNode(ts[i]))
  }

  function Images(ts: seq<FontTable>): (r: seq<TableImage>)
    ensures |r| == |ts| && forall i :: 0 <= i < |ts| ==> r[i] == TableImage(ts[i].tag, ts[i].image)
  {
    seq(|ts|, i requires 0 <= i < |ts| => TableImage(ts[i].tag, ts[i].image))
  }

  /** The validation walk cannot report a cycle either. */
  lemma {:induction false} CheckAcyclic(ts: seq<FontTable>)
    ensures !HasCycle(CheckNodes(ts))
  {
    var ns := CheckNodes(ts);
    forall i, d | 0 <= i < |ns| && d in ns[i].deps
      ensures ValidationRank(d) < ValidationRank(ns[i].kind)
    {
      ValidationRanked(ns[i].kind, d);
    }
    RankedAcyclic(ns, ValidationRank);
  }

  /**
   * `after` is what `Validate` leaves of `before`: sorted by tag, and when
   * every table validated, each writing its validated bytes; otherwise the
   * error is the walk's.
   */
  ghost predicate Validated(before: seq<FontTable>, after: seq<FontTable>, ok: bool, error: Option<Error>)
  {
    var sorted := Sort(before, TagKey);
    && SortedBy(after, TagKey) && |after| == |before|
    && (ok ==> error.None? && after == Settled(sorted) && exists order :: Processes(CheckNodes(sorted), order))
    && (!ok ==> error.Some? && after == sorted && Failed(CheckNodes(sorted), error.value))
  }

  class TrueTypeFont {
    var tables: seq<FontTable>

    constructor (tables: seq<FontTable>)
      ensures this.tables == tables
    {
      this.tables := tables;
    }

    /**
     * `Validate`: sort the tables by tag, then validate each after the
     * tables it depends on; the order the tables were validated in.  When
     * every table validates, each now writes its validated bytes.
     */
    method Validate() returns (res: Result<seq<nat>>)
      modifies this
      ensures var sorted := Sort(old(tables), TagKey);
              && SortedBy(sorted, TagKey) && multiset(sorted) == multiset(old(tables))
              && (res.Ok? ==> Processes(CheckNodes(sorted), res.value) && tables == Settled(sorted))
              && (res.Err? ==> Failed(CheckNodes(sorted), res.error) && tables == sorted)
      ensures SortedBy(tables, TagKey)
      ensures res.Ok? ==> forall i :: 0 <= i < |tables| ==> tables[i].validated == Ok(tables[i].image)
    {
      SortSorts(tables, TagKey);
      var sorted := Sort(tables, TagKey);
      CheckAcyclic(sorted);
      res := Resolve(CheckNodes(sorted));
      if res.Ok? {
        SettledKeeps(sorted, res.value);
        tables := Settled(sorted);
      } else {
        tables := sorted;
      }
    }

    /** `GetSize`: validate unless told not to, then the size of the laid-out file. */
    method GetSize(skipValidation: bool) returns (res: Result<int>)
      modifies this
      ensures skipValidation ==> tables == old(tables) && res.Ok?
      ensures !skipValidation ==> Validated(old(tables), tables, res.Ok?, if res.Err? then Some(res.error) else None)
      ensures res.Ok? ==> res.value == FileSize(Images(tables))
    {
      if !skipValidation {
        var checked := Validate();
        if checked.Err? {
          return Err(checked.error);
        }
      }
      var size := FontLayout.GetSize(Images(tables));
      return Ok(size);
    }

    /**
     * `Serialize`: validate unless told not to, then write the file.  A
     * failed validation leaves dest as it was.
     */
    method Serialize(dest: array<byte>, skipValidation: bool) returns (res: Result<()>)
      requires dest.Length < 0x8000_0000
      modifies this, dest
      ensures skipValidation ==> tables == old(tables)
      ensures res.Ok? ==> Fits(Images(tables), dest.Length) && dest[..] == Assembled(old(dest[..]), Images(tables))
      ensures res.Err? ==> || (!skipValidation && Validated(old(tables), tables, false, Some(res.error)) && dest[..] == old(dest[..]))
                           || ((skipValidation || Validated(old(tables), tables, true, None)) && Outcome(Images(tables), dest.Length) == res)
      ensures res.Ok? && !skipValidation ==> Validated(old(tables), tables, true, None)
    {
      if !skipValidation {
        var checked := Validate();
        if checked.Err? {
          return Err(checked.error);
        }
      }
      res := FontLayout.Serialize(Images(tables), dest);
    }
  }
}
