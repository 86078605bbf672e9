/**
 * BufferReader: a cursor over a read-only byte window.  `Reader` is the
 * reader's state as a value (window and cursor); the functions below are
 * what each operation does to that state, and the class `BufferReader`
 * keeps the same state in fields and updates it in place.  Table decoders
 * use the functions.
 *
 * `Span.Slice(start, length)` throws ArgumentOutOfRangeException when the
 * range leaves the window; `ReadUnaligned` throws IndexOutOfRangeException of
 * its own.  The cursor never goes below 0 (reads only advance it and `Skip`
 * refuses a negative length), but `Skip` can move it past the end.
 */
module BufferReaders {
  import opened Wrappers
  import opened Bytes
  import Records
  import RecordArrays

  datatype Reader = Reader(buffer: seq<byte>, cursor: nat)

  /** A reader over the whole of `buffer`, cursor at 0 (the constructor). */
  function Fresh(buffer: seq<byte>): Reader
  {
    Reader(buffer, 0)
  }

  function Remains(r: Reader): int
  {
    |r.buffer| - r.cursor
  }

  function Advance(r: Reader, n: nat): Reader
  {
    r.(cursor := r.cursor + n)
  }

  /** `ReadUnaligned<T>(out T)` with sizeof(T) = size. */
  function ReadUnaligned(r: Reader, size: nat): (res: Result<(seq<byte>, Reader)>)
    ensures res.Ok? ==> |res.value.0| == size && res.value.1 == Advance(r, size)
  {
    if Remains(r) < size then Err(IndexOutOfRange)
    else Ok((r.buffer[r.cursor..r.cursor + size], Advance(r, size)))
  }

  /** `TryReadUnaligned<T>`: the flag, the bytes of the result (all zero for `default`) and the new state. */
  function TryReadUnaligned(r: Reader, size: nat): (bool, seq<byte>, Reader)
  {
    if Remains(r) < size then (false, Zeros(size), r)
    else (true, r.buffer[r.cursor..r.cursor + size], Advance(r, size))
  }

  /** `ReadBytes(Span<byte> target)` with |target| = length: copies from the window start, then advances. */
  function ReadBytesFromStart(r: Reader, length: nat): Result<(seq<byte>, Reader)>
  {
    if length > |r.buffer| then Err(ArgumentOutOfRange)
    else Ok((r.buffer[..length], Advance(r, length)))
  }

  /** `ReadBytesAsPossible`. */
  function ReadBytesAsPossible(r: Reader): Result<(seq<byte>, Reader)>
  {
    if r.cursor > |r.buffer| then Err(ArgumentOutOfRange)
    else Ok((r.buffer[r.cursor..], r.(cursor := |r.buffer|)))
  }

  /** `ReadBytes(int length)`. */
  function ReadBytes(r: Reader, length: int): (res: Result<(seq<byte>, Reader)>)
    ensures res.Ok? ==> length >= 0 && |res.value.0| == length && res.value.1 == Advance(r, length)
  {
    if length < 0 || r.cursor + length > |r.buffer| then Err(ArgumentOutOfRange)
    else Ok((r.buffer[r.cursor..r.cursor + length], Advance(r, length)))
  }

  /** `ReadUnaligned<T>(int numElements)`: the bytes of numElements values of size `size`. */
  function ReadUnalignedArray(r: Reader, size: nat, numElements: int): (res: Result<(seq<byte>, Reader)>)
    ensures res.Ok? ==> numElements * size >= 0 && |res.value.0| == numElements * size
  {
    ReadBytes(r, numElements * size)
  }

  /** `ReadUnalignedAsPossible<T>`: as many whole values as remain. */
  function ReadUnalignedAsPossible(r: Reader, size: nat): Result<(seq<byte>, Reader)>
    requires size > 0
  {
    if r.cursor > |r.buffer| then Err(ArgumentOutOfRange)
    else
      var n := (|r.buffer| - r.cursor) / size;
      Ok((r.buffer[r.cursor..r.cursor + n * size], Advance(r, n * size)))
  }

  /** `SliceFromStart(offsetFromStart)`: a fresh reader over the window from that offset on. */
  function SliceFromStart(r: Reader, offset: int): Result<Reader>
  {
    if offset < 0 || offset > |r.buffer| then Err(ArgumentOutOfRange)
    else Ok(Fresh(r.buffer[offset..]))
  }

  /** `SliceFromStart(offsetFromStart, length)`. */
  function SliceFromStartLength(r: Reader, offset: int, length: int): Result<Reader>
  {
    if offset < 0 || length < 0 || offset + length > |r.buffer| then Err(ArgumentOutOfRange)
    else Ok(Fresh(r.buffer[offset..offset + length]))
  }

  /** `ReadBuffer(length)`: a fresh reader over the next `length` bytes, which are consumed. */
  function ReadBuffer(r: Reader, length: int): (res: Result<(Reader, Reader)>)
    ensures res.Ok? ==> (length >= 0 && r.cursor + length <= |r.buffer| &&
      res.value.0 == Fresh(r.buffer[r.cursor..r.cursor + length]) && res.value.1 == Advance(r, length))
  {
    var x :- ReadBytes(r, length);
    Ok((Fresh(x.0), x.1))
  }

  /** `Skip(length)`: no bounds check against the window. */
  function Skip(r: Reader, length: int): Result<Reader>
  {
    if length < 0 then Err(ArgumentOutOfRange) else Ok(Advance(r, length))
  }

  // ------------------------------------------------ typed reads over the reader

  /** Reads one field of type f (a struct with a single wrapper field). */
  function ReadField(r: Reader, f: Records.Field): Result<(int, Reader)>
  {
    var x :- ReadUnaligned(r, Records.Width(f));
    Ok((Records.DecodeField(f, x.0), x.1))
  }

  /** Reads one struct with the given layout. */
  function ReadRecord(r: Reader, layout: Records.Layout): (res: Result<(seq<int>, Reader)>)
    ensures res.Ok? ==> Records.Conforms(layout, res.value.0)
  {
    var x :- ReadUnaligned(r, Records.Size(layout));
    Records.DecodeConforms(layout, x.0);
    Ok((Records.Decode(layout, x.0), x.1))
  }

  // ------------------------------------------------ properties

  /** What a successful read returns is the window between the old and the new cursor. */
  predicate Consumed(r: Reader, bytes: seq<byte>, r': Reader)
  {
    r'.buffer == r.buffer && r'.cursor == r.cursor + |bytes| &&
    r'.cursor <= |r.buffer| && bytes == r.buffer[r.cursor..r'.cursor]
  }

  /**
   * Every successful cursor-relative read consumes exactly the bytes it
   * returns, and `Remains` drops by that many.
   */
  lemma {:induction false} ReadsConsume(r: Reader, size: nat, length: int)
    ensures ReadUnaligned(r, size).Ok? ==>
      Consumed(r, ReadUnaligned(r, size).value.0, ReadUnaligned(r, size).value.1) && |ReadUnaligned(r, size).value.0| == size
    ensures ReadBytes(r, length).Ok? ==>
      Consumed(r, ReadBytes(r, length).value.0, ReadBytes(r, length).value.1) && |ReadBytes(r, length).value.0| == length
    ensures ReadBytesAsPossible(r).Ok? ==>
      Consumed(r, ReadBytesAsPossible(r).value.0, ReadBytesAsPossible(r).value.1) && Remains(ReadBytesAsPossible(r).value.1) == 0
    ensures ReadUnaligned(r, size).Ok? ==> Remains(ReadUnaligned(r, size).value.1) == Remains(r) - size
  {
  }

  /** `ReadUnaligned` fails exactly when fewer than `size` bytes remain, and then changes nothing. */
  lemma {:induction false} ReadUnalignedFails(r: Reader, size: nat)
    ensures ReadUnaligned(r, size).Err? <==> Remains(r) < size
    ensures ReadUnaligned(r, size).Err? ==> ReadUnaligned(r, size).error == IndexOutOfRange
  {
  }

  /** `TryReadUnaligned` either agrees with `ReadUnaligned` or reports false, a zero result and an unchanged reader. */
  lemma {:induction false} TryReadAgrees(r: Reader, size: nat)
    ensures var (ok, bytes, r') := TryReadUnaligned(r, size);
      (ok <==> ReadUnaligned(r, size).Ok?) &&
      (ok ==> ReadUnaligned(r, size) == Ok((bytes, r'))) &&
      (!ok ==> r' == r && bytes == Zeros(size))
  {
  }

  /**
   * `ReadBytes(Span)` copies the window's first bytes whatever the cursor is,
   * yet advances the cursor like a cursor-relative read: the two agree only
   * when the cursor is 0.
   */
  lemma {:induction false} ReadBytesFromStartIgnoresCursor(r: Reader, length: nat)
    requires length <= |r.buffer|
    ensures ReadBytesFromStart(r, length).Ok?
    ensures ReadBytesFromStart(r, length).value.0 == r.buffer[..length]
    ensures ReadBytesFromStart(r, length).value.1 == Advance(r, length)
    ensures r.cursor == 0 ==> ReadBytesFromStart(r, length) == ReadBytes(r, length)
  {
  }

  lemma {:induction false} ReadBytesFromStartDiffers()
    ensures var r := Reader([1, 2, 3], 1);
      ReadBytesFromStart(r, 2).value.0 == [1, 2] && ReadBytes(r, 2).value.0 == [2, 3]
  {
    var r := Reader([1, 2, 3], 1);
    assert r.buffer[..2] == [1, 2];
    assert r.buffer[1..3] == [2, 3];
  }

  /** `ReadUnalignedAsPossible` consumes the whole values that remain: ⌊remains/size⌋·size bytes. */
  lemma {:induction false} ReadAsPossibleWholeValues(r: Reader, size: nat)
    requires size > 0 && r.cursor <= |r.buffer|
    ensures ReadUnalignedAsPossible(r, size).Ok?
    ensures var (bytes, r') := ReadUnalignedAsPossible(r, size).value;
      Consumed(r, bytes, r') && |bytes| == (Remains(r) / size) * size && 0 <= Remains(r') < size
  {
    var rem := |r.buffer| - r.cursor;
    var n := rem / size;
    assert rem == n * size + rem % size;
  }

  /** `SliceFromStart` is anchored at the window start: the cursor plays no part. */
  lemma {:induction false} SliceIgnoresCursor(r: Reader, c: nat, offset: int, length: int)
    ensures SliceFromStart(r, offset) == SliceFromStart(r.(cursor := c), offset)
    ensures SliceFromStartLength(r, offset, length) == SliceFromStartLength(r.(cursor := c), offset, length)
    ensures SliceFromStartLength(r, offset, length).Ok? ==>
      SliceFromStartLength(r, offset, length).value == Fresh(r.buffer[offset..offset + length])
  {
  }

  /** `Skip` refuses a negative length and otherwise advances with no bounds check; past the end, every read then fails. */
  lemma {:induction false} SkipUnchecked(r: Reader, length: int, size: nat)
    ensures Skip(r, length).Err? <==> length < 0
    ensures length >= 0 ==> Skip(r, length).value.cursor == r.cursor + length
    ensures length >= 0 && r.cursor + length > |r.buffer| ==>
      ReadUnaligned(Skip(r, length).value, size + 1).Err? && ReadBytesAsPossible(Skip(r, length).value).Err?
  {
  }

  /** Reading a field or a record over its own image returns its value and moves past it. */
  /** Reading as many bytes as a window holds gives the window. */
  lemma {:induction false} ReadBytesOf(img: seq<byte>, p: nat, q: nat, x: seq<byte>)
    requires q == p + |x| <= |img| && img[p..q] == x
    ensures ReadBytes(Reader(img, p), |x|) == Ok((x, Reader(img, q)))
  {
  }

  /** Reading a window's worth of bytes where x lies, followed by y, gives a reader over x and leaves y. */
  lemma {:induction false} ReadBufferOf(img: seq<byte>, p: nat, x: seq<byte>, y: seq<byte>)
    requires p <= |img| && img[p..] == x + y
    ensures ReadBuffer(Reader(img, p), |x|) == Ok((Fresh(x), Reader(img, p + |x|)))
    ensures img[p + |x|..] == y
  {
    assert img[p..p + |x|] == (x + y)[..|x|];
    assert img[p + |x|..] == (x + y)[|x|..];
  }

  lemma {:induction false} ReadFieldOf(r: Reader, f: Records.Field, v: int)
    requires Records.Fits(f, v)
    requires r.cursor + Records.Width(f) <= |r.buffer|
    requires r.buffer[r.cursor..r.cursor + Records.Width(f)] == Records.EncodeField(f, v)
    ensures ReadField(r, f) == Ok((v, Advance(r, Records.Width(f))))
  {
    Records.FieldRoundTrip(f, v, []);
    assert Records.EncodeField(f, v) + [] == Records.EncodeField(f, v);
  }

  /** A record read decodes the bytes at the cursor and moves past them. */
  lemma {:induction false} ReadRecordAt(r: Reader, layout: Records.Layout, bytes: seq<byte>)
    requires r.cursor + Records.Size(layout) <= |r.buffer|
    requires r.buffer[r.cursor..r.cursor + Records.Size(layout)] == bytes
    ensures ReadRecord(r, layout) == Ok((Records.Decode(layout, bytes), Advance(r, Records.Size(layout))))
  {
    assert ReadUnaligned(r, Records.Size(layout)) == Ok((bytes, Advance(r, Records.Size(layout))));
  }

  lemma {:induction false} ReadRecordOf(r: Reader, layout: Records.Layout, values: seq<int>)
    requires Records.Conforms(layout, values)
    requires r.cursor + Records.Size(layout) <= |r.buffer|
    requires r.buffer[r.cursor..r.cursor + Records.Size(layout)] == Records.Encode(layout, values)
    ensures ReadRecord(r, layout) == Ok((values, Advance(r, Records.Size(layout))))
  {
    ReadRecordAt(r, layout, Records.Encode(layout, values));
    Records.DecodeEncode(layout, values);
  }

  // ------------------------------------------------ reading loops

  /**
   * A deserializer's `for` loop that reads count entries one after
   * another, each by `entry` at the cursor the previous one left.
   */
  function ReadMany<T>(r: Reader, count: nat, entry: Reader -> Result<(T, Reader)>): (res: Result<(seq<T>, Reader)>)
    ensures res.Ok? ==> |res.value.0| == count
    decreases count
  {
    if count == 0 then Ok(([], r))
    else
      var e :- entry(r);
      var rest :- ReadMany(e.1, count - 1, entry);
      Ok(([e.0] + rest.0, rest.1))
  }

  /**
   * Entries that each read back as given, one after another at the
   * positions given, make a loop that reads them all back.
   */
  lemma {:induction false} ReadManyAt<T>(data: seq<byte>, pos: seq<nat>, xs: seq<T>, entry: Reader -> Result<(T, Reader)>, i: nat)
    requires |pos| == |xs| + 1 && i <= |xs|
    requires forall j :: i <= j < |xs| ==> entry(Reader(data, pos[j])) == Ok((xs[j], Reader(data, pos[j + 1])))
    ensures ReadMany(Reader(data, pos[i]), |xs| - i, entry) == Ok((xs[i..], Reader(data, pos[|xs|])))
    decreases |xs| - i
  {
    if i < |xs| {
      ReadManyAt(data, pos, xs, entry, i + 1);
      assert xs[i..] == [xs[i]] + xs[i + 1..];
    }
  }

  /** A loop's result so far in front of what the rest of the loop reads (errors pass through). */
  function Prepend<T>(prefix: seq<T>, res: Result<(seq<T>, Reader)>): Result<(seq<T>, Reader)>
  {
    if res.Err? then Err(res.error) else Ok((prefix + res.value.0, res.value.1))
  }

  lemma {:induction false} PrependNil<T>(res: Result<(seq<T>, Reader)>)
    ensures Prepend([], res) == res
  {
    if res.Ok? {
      assert [] + res.value.0 == res.value.0;
    }
  }

  lemma {:induction false} PrependAssoc<T>(a: seq<T>, b: seq<T>, res: Result<(seq<T>, Reader)>)
    ensures Prepend(a, Prepend(b, res)) == Prepend(a + b, res)
  {
    if res.Ok? {
      Assoc(a, b, res.value.0);
    }
  }

  /** One turn of the reading loop: an entry, then the rest. */
  lemma {:induction false} ReadManyCons<T>(r: Reader, entry: Reader -> Result<(T, Reader)>,
                                           e: (T, Reader), rest: seq<T>, last: Reader)
    requires entry(r) == Ok(e)
    requires ReadMany(e.1, |rest|, entry) == Ok((rest, last))
    ensures ReadMany(r, |rest| + 1, entry) == Ok(([e.0] + rest, last))
  {
  }

  /**
   * One turn of a loop that keeps what it has read in `prefix`: a good
   * entry moves into the prefix, a failing one ends the whole loop with
   * its error.
   */
  lemma {:induction false} ReadManyStep<T>(prefix: seq<T>, r: Reader, k: nat, entry: Reader -> Result<(T, Reader)>)
    ensures entry(r).Ok? ==>
      Prepend(prefix, ReadMany(r, k + 1, entry)) == Prepend(prefix + [entry(r).value.0], ReadMany(entry(r).value.1, k, entry))
    ensures entry(r).Err? ==> Prepend(prefix, ReadMany(r, k + 1, entry)) == Err(entry(r).error)
  {
    if entry(r).Ok? {
      var e := entry(r).value;
      assert ReadMany(r, k + 1, entry) == Prepend([e.0], ReadMany(e.1, k, entry));
      PrependAssoc(prefix, [e.0], ReadMany(e.1, k, entry));
    }
  }

  /** The entry reader of a loop that reads one struct of the layout per turn. */
  function RecordReader(layout: Records.Layout): Reader -> Result<(seq<int>, Reader)>
  {
    (r: Reader) => ReadRecord(r, layout)
  }

  /** Every struct such a loop reads fits the layout. */
  lemma {:induction false} ReadRecordsConform(r: Reader, count: nat, layout: Records.Layout)
    ensures ReadMany(r, count, RecordReader(layout)).Ok? ==>
      RecordArrays.AllConform(layout, ReadMany(r, count, RecordReader(layout)).value.0)
    decreases count
  {
    if count > 0 && ReadMany(r, count, RecordReader(layout)).Ok? {
      var e := ReadRecord(r, layout).value;
      assert RecordReader(layout)(r) == ReadRecord(r, layout);
      ReadRecordsConform(e.1, count - 1, layout);
    }
  }

  /** One turn of that loop over a record's image. */
  lemma {:induction false} RecordReaderOf(img: seq<byte>, base: nat, mid: nat, layout: Records.Layout, values: seq<int>)
    requires Records.Conforms(layout, values)
    requires mid == base + Records.Size(layout) && mid <= |img|
    requires img[base..mid] == Records.Encode(layout, values)
    ensures RecordReader(layout)(Reader(img, base)) == Ok((values, Reader(img, mid)))
  {
    var r := Reader(img, base);
    ReadRecordOf(r, layout, values);
    assert RecordReader(layout)(r) == ReadRecord(r, layout);
  }

  /** Reading |rows| structs one by one over an array image gives the rows back and ends after the array. */
  lemma {:induction false} ReadRecords(img: seq<byte>, base: nat, end: nat, layout: Records.Layout, rows: seq<seq<int>>)
    requires RecordArrays.AllConform(layout, rows)
    requires end == base + Times(|rows|, Records.Size(layout)) && end <= |img|
    requires img[base..end] == RecordArrays.EncodeArray(layout, rows)
    ensures ReadMany(Reader(img, base), |rows|, RecordReader(layout)) == Ok((rows, Reader(img, end)))
    decreases |rows|
  {
    if |rows| > 0 {
      var head, tail := Records.Encode(layout, rows[0]), RecordArrays.EncodeArray(layout, rows[1..]);
      Records.EncodeSize(layout, rows[0]);
      var mid := base + Records.Size(layout);
      SplitWindow(img, base, mid, end, head, tail);
      RecordReaderOf(img, base, mid, layout, rows[0]);
      ReadRecords(img, mid, end, layout, rows[1..]);
      ReadManyCons(Reader(img, base), RecordReader(layout), (rows[0], Reader(img, mid)), rows[1..], Reader(img, end));
      assert rows == [rows[0]] + rows[1..];
    } else {
      assert rows == [];
    }
  }
}

/** The reader itself: the same state in fields, updated in place by each operation. */
module BufferReaderObjects {
  import opened Wrappers
  import opened Bytes
  import BufferReaders

  class BufferReader {
    const buffer: seq<byte>
    var cursor: nat

    function State(): BufferReaders.Reader
      reads this
    {
      BufferReaders.Reader(buffer, cursor)
    }

    function Remains(): (n: int)
      reads this
      ensures n == |buffer| - cursor
    {
      |buffer| - cursor
    }

    constructor (buffer: seq<byte>)
      ensures State() == BufferReaders.Fresh(buffer)
    {
      this.buffer := buffer;
      cursor := 0;
    }

    method ReadUnaligned(size: nat) returns (result: Result<seq<byte>>)
      modifies this
      ensures var spec := BufferReaders.ReadUnaligned(old(State()), size);
        if spec.Ok? then result == Ok(spec.value.0) && State() == spec.value.1
        else result == Err(spec.error) && State() == old(State())
    {
      var remains := |buffer| - cursor;
      if remains < size {
        return Err(IndexOutOfRange);
      }
      result := Ok(buffer[cursor..cursor + size]);
      cursor := cursor + size;
    }

    method TryReadUnaligned(size: nat) returns (ok: bool, result: seq<byte>)
      modifies this
      ensures (ok, result, State()) == BufferReaders.TryReadUnaligned(old(State()), size)
    {
      var remains := |buffer| - cursor;
      if remains < size {
        return false, Zeros(size);
      }
      ok, result := true, buffer[cursor..cursor + size];
      cursor := cursor + size;
    }

    /** `ReadBytes(Span<byte> target)`: fills target from the window start. */
    method ReadBytesInto(target: array<byte>) returns (result: Result<()>)
      modifies this, target
      ensures var spec := BufferReaders.ReadBytesFromStart(old(State()), target.Length);
        if spec.Ok? then result.Ok? && target[..] == spec.value.0 && State() == spec.value.1
        else result == Err(spec.error) && State() == old(State()) && target[..] == old(target[..])
    {
      if target.Length > |buffer| {
        return Err(ArgumentOutOfRange);
      }
      var i := 0;
      while i < target.Length
        invariant 0 <= i <= target.Length
        invariant target[..i] == buffer[..i]
        invariant cursor == old(cursor)
      {
        target[i] := buffer[i];
        i := i + 1;
      }
      assert target[..] == target[..target.Length];
      cursor := cursor + target.Length;
      result := Ok(());
    }

    method ReadBytesAsPossible() returns (result: Result<seq<byte>>)
      modifies this
      ensures var spec := BufferReaders.ReadBytesAsPossible(old(State()));
        if spec.Ok? then result == Ok(spec.value.0) && State() == spec.value.1
        else result == Err(spec.error) && State() == old(State())
    {
      if cursor > |buffer| {
        return Err(ArgumentOutOfRange);
      }
      result := Ok(buffer[cursor..]);
      cursor := |buffer|;
    }

    method ReadBytes(length: int) returns (result: Result<seq<byte>>)
      modifies this
      ensures var spec := BufferReaders.ReadBytes(old(State()), length);
        if spec.Ok? then result == Ok(spec.value.0) && State() == spec.value.1
        else result == Err(spec.error) && State() == old(State())
    {
      if length < 0 || cursor + length > |buffer| {
        return Err(ArgumentOutOfRange);
      }
      result := Ok(buffer[cursor..cursor + length]);
      cursor := cursor + length;
    }

    method ReadUnalignedArray(size: nat, numElements: int) returns (result: Result<seq<byte>>)
      modifies this
      ensures var spec := BufferReaders.ReadUnalignedArray(old(State()), size, numElements);
        if spec.Ok? then result == Ok(spec.value.0) && State() == spec.value.1
        else result == Err(spec.error) && State() == old(State())
    {
      var length := numElements * size;
      result := ReadBytes(length);
    }

    method ReadUnalignedAsPossible(size: nat) returns (result: Result<seq<byte>>)
      requires size > 0
      modifies this
      ensures var spec := BufferReaders.ReadUnalignedAsPossible(old(State()), size);
        if spec.Ok? then result == Ok(spec.value.0) && State() == spec.value.1
        else result == Err(spec.error) && State() == old(State())
    {
      if cursor > |buffer| {
        return Err(ArgumentOutOfRange);
      }
      var n := (|buffer| - cursor) / size;
      result := Ok(buffer[cursor..cursor + n * size]);
      cursor := cursor + n * size;
    }

    method SliceFromStart(offset: int) returns (result: Result<BufferReader>)
      ensures var spec := BufferReaders.SliceFromStart(State(), offset);
        if spec.Ok? then result.Ok? && fresh(result.value) && result.value.State() == spec.value
        else result == Err(spec.error)
    {
      if offset < 0 || offset > |buffer| {
        return Err(ArgumentOutOfRange);
      }
      var slice := new BufferReader(buffer[offset..]);
      result := Ok(slice);
    }

    method SliceFromStartLength(offset: int, length: int) returns (result: Result<BufferReader>)
      ensures var spec := BufferReaders.SliceFromStartLength(State(), offset, length);
        if spec.Ok? then result.Ok? && fresh(result.value) && result.value.State() == spec.value
        else result == Err(spec.error)
    {
      if offset < 0 || length < 0 || offset + length > |buffer| {
        return Err(ArgumentOutOfRange);
      }
      var slice := new BufferReader(buffer[offset..offset + length]);
      result := Ok(slice);
    }

    method ReadBuffer(length: int) returns (result: Result<BufferReader>)
      modifies this
      ensures var spec := BufferReaders.ReadBuffer(old(State()), length);
        if spec.Ok? then result.Ok? && fresh(result.value) && result.value.State() == spec.value.0 && State() == spec.value.1
        else result == Err(spec.error) && State() == old(State())
    {
      if length < 0 || cursor + length > |buffer| {
        return Err(ArgumentOutOfRange);
      }
      var slice := new BufferReader(buffer[cursor..cursor + length]);
      cursor := cursor + length;
      result := Ok(slice);
    }

    method Skip(length: int) returns (result: Result<()>)
      modifies this
      ensures var spec := BufferReaders.Skip(old(State()), length);
        if spec.Ok? then result.Ok? && State() == spec.value
        else result == Err(spec.error) && State() == old(State())
    {
      if length < 0 {
        return Err(ArgumentOutOfRange);
      }
      cursor := cursor + length;
      result := Ok(());
    }
  }
}
