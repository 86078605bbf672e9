/**
 * The `cmap` table: a 4-byte header, one 8-byte encoding record per
 * (platform, encoding) pair, and the subtables those records point at.
 * Several records may share one subtable object; the table writes each
 * shared subtable once and, when it reads a table back, records with the
 * same offset share one parsed subtable.
 *
 * The model keeps the subtable objects in a pool and gives each record
 * the index of its subtable there, so sharing is equality of indices.
 */
module Cmap {
  import opened Wrappers
  import opened Bytes
  import opened Records
  import opened RecordArrays
  import BufferReaders
  import FixedTable
  import Slots
  import Sorting
  import CmapSubtables

  type Subtable = CmapSubtables.Subtable

  /** `TtfTableCmapEncodingSubtable`: the platform, the encoding and which subtable of the pool it uses. */
  datatype EncodingRecord = EncodingRecord(platformId: u16, platformSpecificId: u16, subtable: nat)

  datatype CmapTable = CmapTable(records: seq<EncodingRecord>, pool: seq<Subtable>)

  /** Every record points into the pool. */
  predicate Valid(t: CmapTable)
  {
    forall i :: 0 <= i < |t.records| ==> t.records[i].subtable < |t.pool|
  }

  /** version and numberSubTables. */
  const HeaderLayout: Layout := [U16, U16]
  /** platformId, platformSpecificId and offset. */
  const EncodingLayout: Layout := [U16, U16, U32]

  lemma {:induction false} LayoutSizes()
    ensures Size(HeaderLayout) == 4 && Size(EncodingLayout) == 8
  {
  }

  // ------------------------------------------------------------ distinct subtables

  function Indices(records: seq<EncodingRecord>): (s: seq<nat>)
    ensures |s| == |records| && forall i :: 0 <= i < |records| ==> s[i] == records[i].subtable
  {
    seq(|records|, i requires 0 <= i < |records| => records[i].subtable)
  }

  predicate NoDuplicates(s: seq<nat>)
  {
    forall i, j :: 0 <= i < j < |s| ==> s[i] != s[j]
  }

  /**
   * The `tempTables` set after adding each record's subtable in turn,
   * enumerated the way it was filled: every subtable once, in order of
   * first use.
   */
  function Distinct(s: seq<nat>): (d: seq<nat>)
    ensures NoDuplicates(d)
    ensures forall x :: x in d <==> x in s
  {
    if s == [] then []
    else
      var n := |s|;
      var d := Distinct(s[..n - 1]);
      assert s == s[..n - 1] + [s[n - 1]];
      if s[n - 1] in d then d else d + [s[n - 1]]
  }

  /** The table's subtables, each once, in order of first use. */
  function Used(t: CmapTable): seq<nat>
  {
    Distinct(Indices(t.records))
  }

  predicate InPool(pool: seq<Subtable>, d: seq<nat>)
  {
    forall j :: 0 <= j < |d| ==> d[j] < |pool|
  }

  lemma {:induction false} UsedFacts(t: CmapTable)
    requires Valid(t)
    ensures InPool(t.pool, Used(t))
    ensures forall i :: 0 <= i < |t.records| ==> t.records[i].subtable in Used(t)
  {
    var s := Indices(t.records);
    forall j | 0 <= j < |Used(t)|
      ensures Used(t)[j] < |t.pool|
    {
      assert Used(t)[j] in s;
      var i :| 0 <= i < |s| && s[i] == Used(t)[j];
    }
    forall i | 0 <= i < |t.records|
      ensures t.records[i].subtable in Used(t)
    {
      assert s[i] in s;
    }
  }

  /** The loop that fills `tempTables`. */
  method DistinctSubtables(records: seq<EncodingRecord>) returns (d: seq<nat>)
    ensures d == Distinct(Indices(records))
  {
    d := [];
    ghost var s := Indices(records);
    for i := 0 to |records|
      invariant d == Distinct(s[..i])
    {
      assert s[..i + 1][..i] == s[..i];
      if records[i].subtable !in d {
        d := d + [records[i].subtable];
      }
    }
    assert s[..|records|] == s;
  }

  // ------------------------------------------------------------ size

  function Sizes(pool: seq<Subtable>, d: seq<nat>): (s: seq<nat>)
    requires InPool(pool, d)
    ensures |s| == |d| && forall j :: 0 <= j < |d| ==> s[j] == CmapSubtables.SubtableSize(pool[d[j]])
  {
    seq(|d|, j requires 0 <= j < |d| => CmapSubtables.SubtableSize(pool[d[j]]))
  }

  /** `GetSize`: the header, 8 bytes per record and every distinct subtable's size once. */
  function TableSize(t: CmapTable): nat
    requires Valid(t)
  {
    UsedFacts(t);
    4 + 8 * |t.records| + Slots.Total(Sizes(t.pool, Used(t)))
  }

  /** `GetSize`: the set of subtables, then the sum of their sizes. */
  method GetSize(t: CmapTable) returns (size: nat)
    requires Valid(t)
    ensures size == TableSize(t)
  {
    var d := DistinctSubtables(t.records);
    UsedFacts(t);
    ghost var sizes := Sizes(t.pool, d);
    var sum := 0;
    for j := 0 to |d|
      invariant sum == Slots.Total(sizes[..j])
    {
      Slots.TotalStep(sizes, j);
      sum := sum + CmapSubtables.SubtableSize(t.pool[d[j]]);
    }
    assert sizes[..|d|] == sizes;
    size := 4 + |t.records| * 8 + sum;
  }

  /** One more record using a subtable already in the table costs only its 8 bytes. */
  lemma {:induction false} SharedRecordSize(t: CmapTable, e: EncodingRecord)
    requires Valid(t) && e.subtable in Indices(t.records)
    ensures Valid(t.(records := t.records + [e]))
    ensures TableSize(t.(records := t.records + [e])) == TableSize(t) + 8
  {
    var u := t.(records := t.records + [e]);
    var s := Indices(u.records);
    assert s[..|s| - 1] == Indices(t.records);
    assert Used(u) == Used(t);
  }

  /** The same subtables, each once, in any order, add up to the same size. */
  lemma {:induction false} TotalAnyOrder(pool: seq<Subtable>, a: seq<nat>, b: seq<nat>)
    requires InPool(pool, a) && InPool(pool, b) && NoDuplicates(a) && NoDuplicates(b)
    requires forall x :: x in a <==> x in b
    ensures Slots.Total(Sizes(pool, a)) == Slots.Total(Sizes(pool, b))
    decreases |a|
  {
    if a == [] {
      if b != [] {
        FirstIsMember(b);
        assert false;
      }
    } else {
      var n := |a|;
      var x := a[n - 1];
      assert x in a;
      var i :| 0 <= i < |b| && b[i] == x;
      var a', b' := a[..n - 1], b[..i] + b[i + 1..];
      WithoutLast(a, b, i, a', b');
      SizesWithout(pool, a, n - 1, a');
      SizesWithout(pool, b, i, b');
      TotalAnyOrder(pool, a', b');
    }
  }

  /** Taking subtable i out of d takes its size off the total. */
  lemma {:induction false} SizesWithout(pool: seq<Subtable>, d: seq<nat>, i: nat, d': seq<nat>)
    requires InPool(pool, d) && i < |d| && d' == d[..i] + d[i + 1..]
    ensures InPool(pool, d')
    ensures Slots.Total(Sizes(pool, d)) == Slots.Total(Sizes(pool, d')) + CmapSubtables.SubtableSize(pool[d[i]])
  {
    var s := Sizes(pool, d);
    assert forall j :: 0 <= j < |d'| ==> d'[j] == d[if j < i then j else j + 1];
    assert Sizes(pool, d') == s[..i] + s[i + 1..];
    Slots.TotalWithout(s, i);
  }

  lemma {:induction false} FirstIsMember(b: seq<nat>)
    requires |b| > 0
    ensures b[0] in b
  {
  }

  /** Taking a's last element out of both leaves two sequences with the same members, each once. */
  lemma {:induction false} WithoutLast(a: seq<nat>, b: seq<nat>, i: nat, a': seq<nat>, b': seq<nat>)
    requires NoDuplicates(a) && NoDuplicates(b) && forall x :: x in a <==> x in b
    requires |a| > 0 && i < |b| && b[i] == a[|a| - 1]
    requires a' == a[..|a| - 1] && b' == b[..i] + b[i + 1..]
    ensures NoDuplicates(a') && NoDuplicates(b')
    ensures forall y :: y in a' <==> y in b'
  {
    var x := a[|a| - 1];
    assert a == a' + [x];
    assert b == b[..i] + [x] + b[i + 1..];
    forall y
      ensures y in a' <==> y in b'
    {
      assert y in a' <==> y in a && y != x;
      assert y in b' <==> y in b && y != x;
    }
    forall p, q | 0 <= p < q < |b'|
      ensures b'[p] != b'[q]
    {
      var p', q' := if p < i then p else p + 1, if q < i then q else q + 1;
      assert b'[p] == b[p'] && b'[q] == b[q'];
    }
  }

  // ------------------------------------------------------------ sorting

  /** The key the records are sorted by: platform first, then encoding. */
  function Key(e: EncodingRecord): int
  {
    e.platformId * 0x1_0000 + e.platformSpecificId
  }

  /** The comparison `Serialize` passes to `List.Sort`. */
  function Compare(a: EncodingRecord, b: EncodingRecord): int
  {
    if a.platformId - b.platformId != 0 then a.platformId - b.platformId
    else a.platformSpecificId - b.platformSpecificId
  }

  /** The comparison orders records exactly as their keys do. */
  lemma {:induction false} CompareByKey(a: EncodingRecord, b: EncodingRecord)
    ensures Compare(a, b) < 0 <==> Key(a) < Key(b)
    ensures Compare(a, b) == 0 <==> Key(a) == Key(b)
  {
  }

  /** The table with its records in the order `Serialize` leaves them. */
  function Sorted(t: CmapTable): (r: CmapTable)
    ensures r.pool == t.pool && multiset(r.records) == multiset(t.records)
    ensures Sorting.SortedBy(r.records, Key)
  {
    Sorting.SortSorts(t.records, Key);
    t.(records := Sorting.Sort(t.records, Key))
  }

  /**
   * After sorting the records run by platform, and by encoding within a
   * platform; no record is lost or added, and the size is unchanged.
   */
  lemma {:induction false} SortedOrder(t: CmapTable)
    requires Valid(t)
    ensures Valid(Sorted(t)) && TableSize(Sorted(t)) == TableSize(t)
    ensures var s := Sorted(t).records;
      forall i, j :: 0 <= i < j < |s| ==>
        s[i].platformId < s[j].platformId ||
        (s[i].platformId == s[j].platformId && s[i].platformSpecificId <= s[j].platformSpecificId)
  {
    var u := Sorted(t);
    forall i | 0 <= i < |u.records|
      ensures u.records[i].subtable < |u.pool|
    {
      assert u.records[i] in multiset(t.records);
    }
    SameIndices(u.records, t.records);
    UsedFacts(t);
    UsedFacts(u);
    TotalAnyOrder(t.pool, Used(u), Used(t));
    assert |u.records| == |t.records| by {
      assert |multiset(u.records)| == |multiset(t.records)|;
    }
    forall i, j | 0 <= i < j < |u.records|
      ensures u.records[i].platformId < u.records[j].platformId ||
        (u.records[i].platformId == u.records[j].platformId &&
         u.records[i].platformSpecificId <= u.records[j].platformSpecificId)
    {
      CompareByKey(u.records[i], u.records[j]);
    }
  }

  /** Records that are a permutation of each other use the same subtables. */
  lemma {:induction false} SameIndices(a: seq<EncodingRecord>, b: seq<EncodingRecord>)
    requires multiset(a) == multiset(b)
    ensures forall x :: x in Indices(a) <==> x in Indices(b)
  {
    forall x | x in Indices(a)
      ensures x in Indices(b)
    {
      IndexIn(a, b, x);
    }
    forall x | x in Indices(b)
      ensures x in Indices(a)
    {
      IndexIn(b, a, x);
    }
  }

  lemma {:induction false} IndexIn(a: seq<EncodingRecord>, b: seq<EncodingRecord>, x: nat)
    requires multiset(a) == multiset(b) && x in Indices(a)
    ensures x in Indices(b)
  {
    var i :| 0 <= i < |a| && Indices(a)[i] == x;
    assert a[i] in multiset(b);
    var k :| 0 <= k < |b| && b[k] == a[i];
    assert Indices(b)[k] == x;
  }

  // ------------------------------------------------------------ layout

  /** The written images of the subtables, in the order they are laid out. */
  function Images(pool: seq<Subtable>, d: seq<nat>): (parts: seq<seq<byte>>)
    requires InPool(pool, d)
    ensures |parts| == |d| && forall j :: 0 <= j < |d| ==> parts[j] == CmapSubtables.SubtableImage(pool[d[j]])
  {
    seq(|d|, j requires 0 <= j < |d| => CmapSubtables.SubtableImage(pool[d[j]]))
  }

  /** Where the j-th laid-out subtable starts: after the header, the n records and the subtables before it. */
  function Start(n: nat, parts: seq<seq<byte>>, j: nat): nat
    requires j <= |parts|
  {
    4 + 8 * n + Slots.Total(Slots.Lengths(parts)[..j])
  }

  /** The position of x in d. */
  function IndexOf(d: seq<nat>, x: nat): (j: nat)
    requires x in d
    ensures j < |d| && d[j] == x
  {
    if d[0] == x then 0 else 1 + IndexOf(d[1..], x)
  }

  /** The encoding record written for e: its subtable's start cut to 32 bits, as the `uint` offset keeps it. */
  function Row(e: EncodingRecord, d: seq<nat>, parts: seq<seq<byte>>, n: nat): (row: seq<int>)
    requires e.subtable in d && |parts| == |d|
    ensures Conforms(EncodingLayout, row)
  {
    [e.platformId, e.platformSpecificId, Start(n, parts, IndexOf(d, e.subtable)) % 0x1_0000_0000]
  }

  function Rows(records: seq<EncodingRecord>, d: seq<nat>, parts: seq<seq<byte>>): (rows: seq<seq<int>>)
    requires forall i :: 0 <= i < |records| ==> records[i].subtable in d
    requires |parts| == |d|
    ensures |rows| == |records| && AllConform(EncodingLayout, rows)
    ensures forall i :: 0 <= i < |records| ==> rows[i] == Row(records[i], d, parts, |records|)
  {
    seq(|records|, i requires 0 <= i < |records| => Row(records[i], d, parts, |records|))
  }

  function HeaderImage(n: nat): (image: seq<byte>)
    ensures |image| == 4
  {
    LayoutSizes();
    FixedTable.Serialize(HeaderLayout, [0, n % 0x1_0000])
  }

  /** The bytes of a table whose records are written in the order given. */
  function TableImage(t: CmapTable): seq<byte>
    requires Valid(t)
  {
    UsedFacts(t);
    var d := Used(t);
    var parts := Images(t.pool, d);
    HeaderImage(|t.records|) + EncodeArray(EncodingLayout, Rows(t.records, d, parts)) + Slots.Concat(parts)
  }

  /** The pool after `Serialize`: every subtable the table uses with its header rewritten. */
  function WrittenPool(pool: seq<Subtable>, d: seq<nat>): (r: seq<Subtable>)
    ensures |r| == |pool|
  {
    seq(|pool|, k requires 0 <= k < |pool| => if k in d then CmapSubtables.Written(pool[k]) else pool[k])
  }

  /** A subtable whose `Serialize` throws InvalidOperationException: format 4 without segments. */
  predicate Unwritable(s: Subtable)
  {
    s.Format4? && |s.segments| == 0
  }

  predicate AllWritable(pool: seq<Subtable>, d: seq<nat>)
    requires InPool(pool, d)
  {
    forall j :: 0 <= j < |d| ==> !Unwritable(pool[d[j]])
  }

  /** No subtable the table uses is one `Serialize` refuses. */
  predicate Writable(t: CmapTable)
    requires Valid(t)
  {
    UsedFacts(t);
    AllWritable(t.pool, Used(t))
  }

  lemma {:induction false} TableImageSize(t: CmapTable)
    requires Valid(t)
    ensures |TableImage(t)| == TableSize(t)
  {
    UsedFacts(t);
    var d := Used(t);
    var parts := Images(t.pool, d);
    Slots.ConcatLength(parts);
    forall j | 0 <= j < |d|
      ensures Slots.Lengths(parts)[j] == Sizes(t.pool, d)[j]
    {
      CmapSubtables.ImageSize(t.pool[d[j]]);
      CmapSubtables.ImageSize(CmapSubtables.Written(t.pool[d[j]]));
    }
    assert Slots.Lengths(parts) == Sizes(t.pool, d);
    TimesIsProduct(|t.records|, 8);
    LayoutSizes();
  }

  // ------------------------------------------------------------ serializing

  /** The subtable loop of `Serialize` after the first j of the laid-out subtables. */
  predicate SubtablesWritten(pool0: seq<Subtable>, n: nat, d: seq<nat>, parts: seq<seq<byte>>, j: nat,
                             offset: nat, offsets: map<nat, nat>, body: seq<byte>, pool: seq<Subtable>)
  {
    && InPool(pool0, d) && NoDuplicates(d) && j <= |d| && parts == Images(pool0, d)
    && (forall l :: 0 <= l < j ==> !Unwritable(pool0[d[l]]))
    && body == Slots.Concat(parts[..j])
    && offset == Start(n, parts, j)
    && OffsetsRecorded(n, d, parts, j, offsets)
    && PoolWritten(pool0, d[..j], pool)
  }

  /** The `subtables` dictionary holds the start of each of the first j laid-out subtables. */
  predicate OffsetsRecorded(n: nat, d: seq<nat>, parts: seq<seq<byte>>, j: nat, offsets: map<nat, nat>)
    requires j <= |d| == |parts|
  {
    forall l :: 0 <= l < j ==> d[l] in offsets && offsets[d[l]] == Start(n, parts, l) % 0x1_0000_0000
  }

  /** The subtables in done have had their headers rewritten, the others not yet. */
  predicate PoolWritten(pool0: seq<Subtable>, done: seq<nat>, pool: seq<Subtable>)
  {
    |pool| == |pool0| &&
    forall k :: 0 <= k < |pool| ==> pool[k] == if k in done then CmapSubtables.Written(pool0[k]) else pool0[k]
  }

  lemma {:induction false} SubtableStep(pool0: seq<Subtable>, n: nat, d: seq<nat>, parts: seq<seq<byte>>, j: nat,
                                        offset: nat, offsets: map<nat, nat>, body: seq<byte>, pool: seq<Subtable>)
    requires SubtablesWritten(pool0, n, d, parts, j, offset, offsets, body, pool)
    requires j < |d| && !Unwritable(pool0[d[j]])
    ensures pool[d[j]] == pool0[d[j]]
    ensures SubtablesWritten(pool0, n, d, parts, j + 1, offset + CmapSubtables.SubtableSize(pool0[d[j]]),
      offsets[d[j] := offset % 0x1_0000_0000], body + CmapSubtables.SubtableImage(pool0[d[j]]),
      pool[d[j] := CmapSubtables.Written(pool0[d[j]])])
  {
    var k := d[j];
    var s := pool0[k];
    StepLengths(pool0, n, d, parts, j, offset, body);
    OffsetsStep(n, d, parts, j, offsets, offset);
    PoolSnoc(pool0, d, j, pool);
    WrittenIntro(pool0, n, d, parts, j + 1, offset + CmapSubtables.SubtableSize(s), offsets[k := offset % 0x1_0000_0000],
      body + CmapSubtables.SubtableImage(s), pool[k := CmapSubtables.Written(s)]);
  }

  lemma {:induction false} WrittenIntro(pool0: seq<Subtable>, n: nat, d: seq<nat>, parts: seq<seq<byte>>, j: nat,
                                        offset: nat, offsets: map<nat, nat>, body: seq<byte>, pool: seq<Subtable>)
    requires InPool(pool0, d) && NoDuplicates(d) && j <= |d| && parts == Images(pool0, d)
    requires forall l :: 0 <= l < j ==> !Unwritable(pool0[d[l]])
    requires body == Slots.Concat(parts[..j]) && offset == Start(n, parts, j)
    requires OffsetsRecorded(n, d, parts, j, offsets) && PoolWritten(pool0, d[..j], pool)
    ensures SubtablesWritten(pool0, n, d, parts, j, offset, offsets, body, pool)
  {
  }

  /** The running body and offset after one more subtable. */
  lemma {:induction false} StepLengths(pool0: seq<Subtable>, n: nat, d: seq<nat>, parts: seq<seq<byte>>, j: nat,
                                       offset: nat, body: seq<byte>)
    requires InPool(pool0, d) && j < |d| && parts == Images(pool0, d)
    requires body == Slots.Concat(parts[..j]) && offset == Start(n, parts, j)
    ensures body + CmapSubtables.SubtableImage(pool0[d[j]]) == Slots.Concat(parts[..j + 1])
    ensures offset + CmapSubtables.SubtableSize(pool0[d[j]]) == Start(n, parts, j + 1)
  {
    Slots.ConcatStep(parts, j);
    Slots.TotalStep(Slots.Lengths(parts), j);
    CmapSubtables.ImageSize(pool0[d[j]]);
    CmapSubtables.ImageSize(CmapSubtables.Written(pool0[d[j]]));
  }

  /** The pool after writing the header of one more subtable. */
  lemma {:induction false} PoolSnoc(pool0: seq<Subtable>, d: seq<nat>, j: nat, pool: seq<Subtable>)
    requires InPool(pool0, d) && NoDuplicates(d) && j < |d| && PoolWritten(pool0, d[..j], pool)
    ensures pool[d[j]] == pool0[d[j]]
    ensures PoolWritten(pool0, d[..j + 1], pool[d[j] := CmapSubtables.Written(pool0[d[j]])])
  {
    assert d[j] !in d[..j];
    PoolStep(pool0, d[..j], pool, d[j]);
    assert d[..j + 1] == d[..j] + [d[j]];
  }

  lemma {:induction false} OffsetsStep(n: nat, d: seq<nat>, parts: seq<seq<byte>>, j: nat, offsets: map<nat, nat>, offset: nat)
    requires j < |d| == |parts| && NoDuplicates(d) && OffsetsRecorded(n, d, parts, j, offsets)
    requires offset == Start(n, parts, j)
    ensures OffsetsRecorded(n, d, parts, j + 1, offsets[d[j] := offset % 0x1_0000_0000])
  {
    var offsets' := offsets[d[j] := offset % 0x1_0000_0000];
    forall l | 0 <= l < j + 1
      ensures d[l] in offsets' && offsets'[d[l]] == Start(n, parts, l) % 0x1_0000_0000
    {
      if l < j {
        assert d[l] != d[j];
      }
    }
  }

  lemma {:induction false} PoolStep(pool0: seq<Subtable>, done: seq<nat>, pool: seq<Subtable>, k: nat)
    requires PoolWritten(pool0, done, pool) && k < |pool0| && k !in done
    ensures pool[k] == pool0[k]
    ensures PoolWritten(pool0, done + [k], pool[k := CmapSubtables.Written(pool0[k])])
  {
  }

  /** The subtable loop of `Serialize`: each distinct subtable written at the running offset, which is recorded for it. */
  method WriteSubtables(pool0: seq<Subtable>, n: nat, d: seq<nat>) returns (res: Result<(map<nat, nat>, seq<byte>, seq<Subtable>)>)
    requires InPool(pool0, d) && NoDuplicates(d)
    ensures !AllWritable(pool0, d) ==> res == Err(InvalidOperation(""))
    ensures AllWritable(pool0, d) ==> (res.Ok? &&
      OffsetsRecorded(n, d, Images(pool0, d), |d|, res.value.0) &&
      res.value.1 == Slots.Concat(Images(pool0, d)) && res.value.2 == WrittenPool(pool0, d))
  {
    ghost var parts := Images(pool0, d);
    var subtableOffset: nat := 4 + n * 8;
    var offsets: map<nat, nat> := map[];
    var body: seq<byte> := [];
    var pool := pool0;
    for j := 0 to |d|
      invariant SubtablesWritten(pool0, n, d, parts, j, subtableOffset, offsets, body, pool)
    {
      var k := d[j];
      assert k !in d[..j];
      var w := CmapSubtables.Serialize(pool[k], CmapSubtables.SubtableSize(pool[k]));
      if w.Err? {
        return Err(w.error);
      }
      SubtableStep(pool0, n, d, parts, j, subtableOffset, offsets, body, pool);
      offsets := offsets[k := subtableOffset % 0x1_0000_0000];
      pool := pool[k := w.value.0];
      body := body + w.value.1;
      subtableOffset := subtableOffset + CmapSubtables.SubtableSize(pool0[k]);
    }
    assert parts[..|d|] == parts && d[..|d|] == d;
    PoolWrittenAll(pool0, d, pool);
    res := Ok((offsets, body, pool));
  }

  lemma {:induction false} PoolWrittenAll(pool0: seq<Subtable>, d: seq<nat>, pool: seq<Subtable>)
    requires PoolWritten(pool0, d, pool)
    ensures pool == WrittenPool(pool0, d)
  {
  }

  /** The record loop of `Serialize`: each record with its subtable's recorded offset. */
  method WriteRecords(records: seq<EncodingRecord>, d: seq<nat>, parts: seq<seq<byte>>, offsets: map<nat, nat>) returns (dir: seq<byte>)
    requires forall i :: 0 <= i < |records| ==> records[i].subtable in d
    requires |parts| == |d| && OffsetsRecorded(|records|, d, parts, |d|, offsets)
    ensures dir == EncodeArray(EncodingLayout, Rows(records, d, parts))
  {
    ghost var rows := Rows(records, d, parts);
    dir := [];
    for i := 0 to |records|
      invariant dir == EncodeArray(EncodingLayout, rows[..i])
    {
      var e := records[i];
      ghost var l := IndexOf(d, e.subtable);
      assert d[l] in offsets;
      var row := [e.platformId, e.platformSpecificId, offsets[e.subtable]];
      assert row == rows[i];
      EncodeArraySnoc(EncodingLayout, rows, i);
      dir := dir + Encode(EncodingLayout, row);
    }
    assert rows[..|records|] == rows;
  }

  /**
   * `Serialize` into a destination of destLength bytes: ArgumentException
   * unless that is the table's size; otherwise the records sorted, each
   * distinct subtable written once after the records, in order of first
   * use, and each record pointing at its subtable's start.  A subtable that
   * cannot be written makes the whole call fail with its exception.
   */
  method Serialize(t: CmapTable, destLength: int) returns (res: Result<(CmapTable, seq<byte>)>)
    requires Valid(t)
    ensures Valid(Sorted(t))
    ensures destLength != TableSize(t) ==> res == Err(Argument)
    ensures destLength == TableSize(t) && !Writable(Sorted(t)) ==> res == Err(InvalidOperation(""))
    ensures destLength == TableSize(t) && Writable(Sorted(t)) ==>
      res == Ok((CmapTable(Sorted(t).records, WrittenPool(t.pool, Used(Sorted(t)))), TableImage(Sorted(t))))
  {
    SortedOrder(t);
    var size := GetSize(t);
    if destLength != size {
      return Err(Argument);
    }
    var sorted := Sorting.Sort(t.records, Key);
    var header := HeaderImage(|sorted|);
    var d := DistinctSubtables(sorted);
    UsedFacts(Sorted(t));
    var w := WriteSubtables(t.pool, |sorted|, d);
    if w.Err? {
      return Err(w.error);
    }
    var dir := WriteRecords(sorted, d, Images(t.pool, d), w.value.0);
    res := Ok((CmapTable(sorted, w.value.2), header + dir + w.value.1));
  }

  // ------------------------------------------------------------ parsing

  /**
   * The size a subtable's header stores, read after its format: a 16-bit
   * length for formats 0, 4 and 6, a 32-bit one after a reserved word for
   * format 12.  Any other format is NotSupportedException.
   */
  function SizeField(format: u16, r: BufferReaders.Reader): (res: Result<nat>)
    ensures res.Ok? ==> res.value < 0x1_0000_0000
  {
    if format == 0 || format == 4 || format == 6 then
      var x :- BufferReaders.ReadUnaligned(r, 2);
      Ok(U16At(x.0, 0) as nat)
    else if format == 12 then
      var x :- BufferReaders.ReadUnaligned(r, 2);
      var y :- BufferReaders.ReadUnaligned(x.1, 4);
      Ok(U32At(y.0, 0) as nat)
    else Err(NotSupported)
  }

  /** The format's own `Deserialize`, format 0's as written. */
  function ParseFormat(format: u16, r: BufferReaders.Reader): Result<Subtable>
  {
    if format == 0 then CmapSubtables.Parse0AsWritten(r)
    else if format == 4 then CmapSubtables.Parse4(r)
    else if format == 6 then CmapSubtables.Parse6(r)
    else if format == 12 then CmapSubtables.Parse12(r)
    else Err(NotSupported)
  }

  /**
   * The subtable read for a record with this offset: the format and size
   * from the subtable's header, then the format's parser on exactly size
   * bytes from the offset.  Offset and size go through `(int)` casts.
   */
  function SubtableAt(window: BufferReaders.Reader, offset: u32): Result<Subtable>
  {
    var head :- BufferReaders.SliceFromStart(window, Signed(32, offset));
    var f :- BufferReaders.ReadUnaligned(head, 2);
    var format := U16At(f.0, 0);
    var size :- SizeField(format, f.1);
    var slice :- BufferReaders.SliceFromStartLength(window, Signed(32, offset), Signed(32, size));
    ParseFormat(format, slice)
  }

  /** The subtable parser each new offset is handed to. */
  function SubtablesOf(window: BufferReaders.Reader): u32 -> Result<Subtable>
  {
    (o: u32) => SubtableAt(window, o)
  }

  /**
   * What the reading loop has built so far: the records, the subtables
   * parsed, the `subtables` dictionary from offsets to pool indices, and
   * the offset each record stored.
   */
  datatype Progress = Progress(records: seq<EncodingRecord>, pool: seq<Subtable>, seen: map<u32, nat>, offsets: seq<u32>)

  const Empty: Progress := Progress([], [], map[], [])

  /** One encoding record read: its subtable shared if its offset was seen, parsed and added otherwise. */
  function AddRecord(read: u32 -> Result<Subtable>, row: seq<int>, p: Progress): Result<Progress>
    requires Conforms(EncodingLayout, row)
  {
    var offset: u32 := row[2];
    if offset in p.seen then
      Ok(p.(records := p.records + [EncodingRecord(row[0], row[1], p.seen[offset])], offsets := p.offsets + [offset]))
    else
      var sub :- read(offset);
      Ok(Progress(p.records + [EncodingRecord(row[0], row[1], |p.pool|)], p.pool + [sub],
                  p.seen[offset := |p.pool|], p.offsets + [offset]))
  }

  /** The loop over numberSubTables records, read one after another at the cursor. */
  function ReadEncodings(read: u32 -> Result<Subtable>, r: BufferReaders.Reader, count: nat, p: Progress): Result<(Progress, BufferReaders.Reader)>
    decreases count
  {
    if count == 0 then Ok((p, r))
    else
      var e :- BufferReaders.ReadRecord(r, EncodingLayout);
      var q :- AddRecord(read, e.0, p);
      ReadEncodings(read, e.1, count - 1, q)
  }

  /** `Deserialize`: the header (NotSupportedException unless version 0), then the records. */
  function Parse(r: BufferReaders.Reader): Result<(CmapTable, BufferReaders.Reader)>
  {
    var h :- FixedTable.Deserialize(r, HeaderLayout);
    if h.0[0] != 0 then Err(NotSupported)
    else
      var x :- ReadEncodings(SubtablesOf(r), h.1, h.0[1], Empty);
      Ok((CmapTable(x.0.records, x.0.pool), x.1))
  }

  /** One turn of the reading loop that reads its record and adds it. */
  lemma {:induction false} ReadEncodingsStep(read: u32 -> Result<Subtable>, r: BufferReaders.Reader, count: nat, p: Progress)
    requires 0 < count && BufferReaders.ReadRecord(r, EncodingLayout).Ok?
    requires AddRecord(read, BufferReaders.ReadRecord(r, EncodingLayout).value.0, p).Ok?
    ensures var e := BufferReaders.ReadRecord(r, EncodingLayout).value;
      ReadEncodings(read, r, count, p) == ReadEncodings(read, e.1, count - 1, AddRecord(read, e.0, p).value)
  {
  }

  /** `Deserialize`: the header, then the records loop. */
  method Deserialize(data: BufferReaders.Reader) returns (res: Result<(CmapTable, BufferReaders.Reader)>)
    ensures res == Parse(data)
  {
    var h := FixedTable.Deserialize(data, HeaderLayout);
    if h.Err? {
      return Err(h.error);
    }
    var header := h.value.0;
    if header[0] != 0 {
      return Err(NotSupported);
    }
    var x := ReadRecords(SubtablesOf(data), h.value.1, header[1]);
    if x.Err? {
      return Err(x.error);
    }
    res := Ok((CmapTable(x.value.0.records, x.value.0.pool), x.value.1));
  }

  /** `Deserialize`'s loop, one encoding record per turn, each new offset's subtable parsed by read. */
  method ReadRecords(read: u32 -> Result<Subtable>, start: BufferReaders.Reader, count: nat)
    returns (res: Result<(Progress, BufferReaders.Reader)>)
    ensures res == ReadEncodings(read, start, count, Empty)
  {
    var p := Empty;
    var r := start;
    for i := 0 to count
      invariant ReadEncodings(read, r, count - i, p) == ReadEncodings(read, start, count, Empty)
    {
      var e := BufferReaders.ReadRecord(r, EncodingLayout);
      if e.Err? {
        return Err(e.error);
      }
      var row := e.value.0;
      var offset: u32 := row[2];
      ghost var next := AddRecord(read, row, p);
      ghost var old_p := p;
      if offset in p.seen {
        p := p.(records := p.records + [EncodingRecord(row[0], row[1], p.seen[offset])], offsets := p.offsets + [offset]);
      } else {
        var sub := read(offset);
        if sub.Err? {
          return Err(sub.error);
        }
        p := Progress(p.records + [EncodingRecord(row[0], row[1], |p.pool|)], p.pool + [sub.value],
                      p.seen[offset := |p.pool|], p.offsets + [offset]);
      }
      assert next == Ok(p);
      ReadEncodingsStep(read, r, count - i, old_p);
      r := e.value.1;
    }
    res := Ok((p, r));
  }

  // ------------------------------------------------------------ sharing on reading

  function Range(n: nat): (s: seq<nat>)
    ensures |s| == n && forall k :: 0 <= k < n ==> s[k] == k
  {
    seq(n, k requires 0 <= k < n => k)
  }

  /**
   * The reading loop's invariant: each record's subtable is the one parsed
   * for the offset it stored, distinct offsets have distinct subtables, and
   * the pool holds one subtable per distinct offset, in order of first use.
   */
  predicate Shares(p: Progress)
  {
    && RecordsSeen(p.records, p.offsets, p.seen)
    && (forall o :: o in p.seen ==> p.seen[o] < |p.pool|)
    && (forall o, o' :: o in p.seen && o' in p.seen && p.seen[o] == p.seen[o'] ==> o == o')
    && Distinct(Indices(p.records)) == Range(|p.pool|)
  }

  /** Each record's subtable is the one noted for the offset it stored. */
  predicate RecordsSeen(records: seq<EncodingRecord>, offsets: seq<u32>, seen: map<u32, nat>)
  {
    && |offsets| == |records|
    && forall i :: 0 <= i < |records| ==> offsets[i] in seen && records[i].subtable == seen[offsets[i]]
  }

  lemma {:induction false} RecordsSeenSnoc(records: seq<EncodingRecord>, offsets: seq<u32>, seen: map<u32, nat>,
                                           e: EncodingRecord, o: u32, seen': map<u32, nat>)
    requires RecordsSeen(records, offsets, seen)
    requires forall o1 :: o1 in seen ==> o1 in seen' && seen'[o1] == seen[o1]
    requires o in seen' && seen'[o] == e.subtable
    ensures RecordsSeen(records + [e], offsets + [o], seen')
  {
    forall i | 0 <= i < |records| + 1
      ensures (offsets + [o])[i] in seen' && (records + [e])[i].subtable == seen'[(offsets + [o])[i]]
    {
      if i < |records| {
        assert (offsets + [o])[i] == offsets[i] && (records + [e])[i] == records[i];
      }
    }
  }

  lemma {:induction false} IndicesSnoc(records: seq<EncodingRecord>, e: EncodingRecord)
    ensures Indices(records + [e]) == Indices(records) + [e.subtable]
    ensures Distinct(Indices(records + [e])) ==
      if e.subtable in Indices(records) then Distinct(Indices(records)) else Distinct(Indices(records)) + [e.subtable]
  {
    var s := Indices(records + [e]);
    assert s == Indices(records) + [e.subtable];
    assert s[..|s| - 1] == Indices(records);
  }

  lemma {:induction false} AddRecordShares(read: u32 -> Result<Subtable>, row: seq<int>, p: Progress)
    requires Conforms(EncodingLayout, row) && Shares(p) && AddRecord(read, row, p).Ok?
    ensures var q := AddRecord(read, row, p).value;
      Shares(q) && q.offsets == p.offsets + [row[2] as u32] && |q.records| == |p.records| + 1
  {
    var o: u32 := row[2];
    if o in p.seen {
      ShareSeen(p, EncodingRecord(row[0], row[1], p.seen[o]), o);
    } else {
      ShareNew(p, EncodingRecord(row[0], row[1], |p.pool|), o, read(o).value);
    }
  }

  /** A record whose offset was seen shares the subtable parsed for it. */
  lemma {:induction false} ShareSeen(p: Progress, e: EncodingRecord, o: u32)
    requires Shares(p) && o in p.seen && e.subtable == p.seen[o]
    ensures Shares(p.(records := p.records + [e], offsets := p.offsets + [o]))
  {
    IndicesSnoc(p.records, e);
    assert Range(|p.pool|)[e.subtable] == e.subtable;
    assert e.subtable in Distinct(Indices(p.records));
    RecordsSeenSnoc(p.records, p.offsets, p.seen, e, o, p.seen);
  }

  /** A record with a new offset gets a new subtable, at the end of the pool. */
  lemma {:induction false} ShareNew(p: Progress, e: EncodingRecord, o: u32, sub: Subtable)
    requires Shares(p) && o !in p.seen && e.subtable == |p.pool|
    ensures Shares(Progress(p.records + [e], p.pool + [sub], p.seen[o := |p.pool|], p.offsets + [o]))
  {
    var seen' := p.seen[o := |p.pool|];
    var q := Progress(p.records + [e], p.pool + [sub], seen', p.offsets + [o]);
    assert RecordsSeen(q.records, q.offsets, q.seen) by {
      RecordsSeenSnoc(p.records, p.offsets, p.seen, e, o, seen');
    }
    assert forall o1 :: o1 in seen' ==> seen'[o1] < |q.pool|;
    assert forall o1, o2 :: o1 in seen' && o2 in seen' && seen'[o1] == seen'[o2] ==> o1 == o2;
    assert Distinct(Indices(q.records)) == Range(|q.pool|) by {
      IndicesSnoc(p.records, e);
      assert |p.pool| !in Range(|p.pool|);
      RangeSnoc(|p.pool|);
    }
  }

  lemma {:induction false} RangeSnoc(n: nat)
    ensures Range(n) + [n] == Range(n + 1)
  {
    var a, b := Range(n) + [n], Range(n + 1);
    forall k | 0 <= k < n + 1
      ensures a[k] == b[k]
    {
      if k < n {
        assert a[k] == Range(n)[k];
      }
    }
    assert a == b;
  }

  /** The offset the i-th encoding record stores, the records starting at byte c. */
  function StoredOffset(b: seq<byte>, c: nat, i: nat): u32
    requires c + 8 * i + 8 <= |b|
  {
    U32At(b, c + 8 * i + 4)
  }

  function StoredOffsets(b: seq<byte>, c: nat, n: nat): (s: seq<u32>)
    requires c + 8 * n <= |b|
    ensures |s| == n && forall i :: 0 <= i < n ==> s[i] == StoredOffset(b, c, i)
  {
    seq(n, i requires 0 <= i < n => StoredOffset(b, c, i))
  }

  /** An encoding record's fields are the words at its position. */
  lemma {:induction false} RowAt(b: seq<byte>, c: nat)
    requires c + 8 <= |b|
    ensures var row := Decode(EncodingLayout, b[c..c + 8]);
      |row| == 3 && row[0] == U16At(b, c) && row[1] == U16At(b, c + 2) && row[2] == U32At(b, c + 4)
  {
    var x := b[c..c + 8];
    assert x[2..][2..] == x[4..];
    assert EncodingLayout[1..] == [U32, U32][0 := U16] && EncodingLayout[1..][1..] == [U32];
    var d2 := Decode([U32], x[4..]);
    assert [U32][1..] == [];
    assert d2 == [U32At(x[4..], 0)] + Decode([], x[4..][4..]);
    var d1 := Decode(EncodingLayout[1..], x[2..]);
    assert d1 == [U16At(x[2..], 0)] + d2;
    assert Decode(EncodingLayout, x) == [U16At(x, 0)] + d1;
    assert U16At(x, 0) == U16At(b, c);
    assert U16At(x[2..], 0) == U16At(b, c + 2);
    assert U32At(x[4..], 0) == U32At(b, c + 4) by {
      assert U16At(x[4..], 0) == U16At(b, c + 4);
      assert U16At(x[4..], 2) == U16At(b, c + 6);
    }
  }

  /** The row at the cursor, as the reader decodes it. */
  function NextRow(r: BufferReaders.Reader): (row: seq<int>)
    requires r.cursor + 8 <= |r.buffer|
    ensures Conforms(EncodingLayout, row) && |row| == 3 && row[2] == U32At(r.buffer, r.cursor + 4)
  {
    LayoutSizes();
    RowAt(r.buffer, r.cursor);
    Decode(EncodingLayout, r.buffer[r.cursor..r.cursor + 8])
  }

  /** One turn of the reading loop, when the whole loop succeeds. */
  lemma {:induction false} ReadEncodingsUnfold(read: u32 -> Result<Subtable>, r: BufferReaders.Reader, count: nat, p: Progress)
    requires 0 < count && r.cursor <= |r.buffer| && ReadEncodings(read, r, count, p).Ok?
    ensures r.cursor + 8 <= |r.buffer| && AddRecord(read, NextRow(r), p).Ok?
    ensures ReadEncodings(read, r, count, p)
      == ReadEncodings(read, BufferReaders.Advance(r, 8), count - 1, AddRecord(read, NextRow(r), p).value)
  {
    LayoutSizes();
    var e := BufferReaders.ReadRecord(r, EncodingLayout).value;
    assert e.0 == Decode(EncodingLayout, r.buffer[r.cursor..r.cursor + 8]) && e.1 == BufferReaders.Advance(r, 8);
  }

  /** The loop reads count records, one after another, and notes the offset each stored. */
  lemma {:induction false} ReadEncodingsOffsets(read: u32 -> Result<Subtable>, r: BufferReaders.Reader, count: nat, p: Progress)
    requires r.cursor <= |r.buffer| && ReadEncodings(read, r, count, p).Ok?
    ensures var x := ReadEncodings(read, r, count, p).value;
      && r.cursor + 8 * count <= |r.buffer| && x.1 == BufferReaders.Advance(r, 8 * count)
      && x.0.offsets == p.offsets + StoredOffsets(r.buffer, r.cursor, count)
    decreases count
  {
    if count == 0 {
      assert p.offsets + StoredOffsets(r.buffer, r.cursor, 0) == p.offsets;
    } else {
      ReadEncodingsUnfold(read, r, count, p);
      var row := NextRow(r);
      var q := AddRecord(read, row, p).value;
      assert q.offsets == p.offsets + [row[2] as u32];
      ReadEncodingsOffsets(read, BufferReaders.Advance(r, 8), count - 1, q);
      StoredOffsetsCons(r.buffer, r.cursor, count);
      Assoc(p.offsets, [row[2] as u32], StoredOffsets(r.buffer, r.cursor + 8, count - 1));
    }
  }

  /** Every turn of the loop keeps `Shares`. */
  lemma {:induction false} ReadEncodingsShares(read: u32 -> Result<Subtable>, r: BufferReaders.Reader, count: nat, p: Progress)
    requires Shares(p) && r.cursor <= |r.buffer| && ReadEncodings(read, r, count, p).Ok?
    ensures Shares(ReadEncodings(read, r, count, p).value.0)
    decreases count
  {
    if count > 0 {
      ReadEncodingsUnfold(read, r, count, p);
      var row := NextRow(r);
      AddRecordShares(read, row, p);
      ReadEncodingsShares(read, BufferReaders.Advance(r, 8), count - 1, AddRecord(read, row, p).value);
    }
  }

  /** Progress that keeps the sharing facts describes a valid table whose records share exactly when their offsets agree. */
  lemma {:induction false} SharesValid(p: Progress)
    requires Shares(p)
    ensures Valid(CmapTable(p.records, p.pool))
    ensures forall i, j :: 0 <= i < |p.records| && 0 <= j < |p.records| ==>
      (p.records[i].subtable == p.records[j].subtable <==> p.offsets[i] == p.offsets[j])
  {
    forall i | 0 <= i < |p.records|
      ensures p.records[i].subtable < |p.pool|
    {
      assert p.offsets[i] in p.seen;
    }
    forall i, j | 0 <= i < |p.records| && 0 <= j < |p.records|
      ensures p.records[i].subtable == p.records[j].subtable <==> p.offsets[i] == p.offsets[j]
    {
      assert p.offsets[i] in p.seen && p.offsets[j] in p.seen;
    }
  }

  lemma {:induction false} StoredOffsetsCons(b: seq<byte>, c: nat, n: nat)
    requires 0 < n && c + 8 * n <= |b|
    ensures StoredOffsets(b, c, n) == [U32At(b, c + 4)] + StoredOffsets(b, c + 8, n - 1)
  {
    var rest := StoredOffsets(b, c + 8, n - 1);
    forall i | 0 <= i < n - 1
      ensures rest[i] == StoredOffset(b, c, i + 1)
    {
      assert c + 8 + 8 * i + 4 == c + 8 * (i + 1) + 4;
    }
  }

  /**
   * Whatever the bytes, a table that parses is valid, holds one subtable
   * per distinct stored offset, numbered in order of first use, and two of
   * its records share a subtable exactly when they stored the same offset.
   */
  lemma {:induction false} ParseShares(r: BufferReaders.Reader)
    requires Parse(r).Ok?
    ensures var t := Parse(r).value.0;
      && Valid(t) && Used(t) == Range(|t.pool|)
      && r.cursor + 4 + 8 * |t.records| <= |r.buffer|
      && forall i, j :: 0 <= i < |t.records| && 0 <= j < |t.records| ==>
           (t.records[i].subtable == t.records[j].subtable <==>
            StoredOffset(r.buffer, r.cursor + 4, i) == StoredOffset(r.buffer, r.cursor + 4, j))
  {
    LayoutSizes();
    var h := FixedTable.Deserialize(r, HeaderLayout).value;
    assert h.1.cursor <= |h.1.buffer| && h.1 == BufferReaders.Advance(r, 4);
    var x := ReadEncodings(SubtablesOf(r), h.1, h.0[1], Empty).value;
    assert Distinct(Indices([])) == [] == Range(0);
    ReadEncodingsShares(SubtablesOf(r), h.1, h.0[1], Empty);
    ReadEncodingsOffsets(SubtablesOf(r), h.1, h.0[1], Empty);
    SharesValid(x.0);
    var t := Parse(r).value.0;
    assert t.records == x.0.records && t.pool == x.0.pool;
    assert x.0.offsets == StoredOffsets(r.buffer, r.cursor + 4, |t.records|);
  }
}
