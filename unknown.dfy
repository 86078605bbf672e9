/**
 * TrueTypeTableUnknown: a table the library has no definition for, kept as
 * raw bytes under its tag.  `data` is None before the first parse (a null
 * array).
 */
module Unknown {
  import opened Wrappers
  import opened Bytes
  import BufferReaders
  import BufferReaderObjects

  datatype UnknownTable = UnknownTable(tag: u32, data: Option<seq<byte>>)

  function GetSize(t: UnknownTable): nat
  {
    if t.data.None? then 0 else |t.data.value|
  }

  /**
   * `Serialize` into a destination of destLength bytes: IndexOutOfRange
   * unless it is exactly the table's size; then the stored bytes (none for a
   * null array, whose destination is empty).
   */
  function Serialize(t: UnknownTable, destLength: int): (res: Result<seq<byte>>)
    ensures res.Ok? <==> destLength == GetSize(t)
    ensures res.Err? ==> res.error == IndexOutOfRange
    ensures res.Ok? ==> |res.value| == destLength && (t.data.Some? ==> res.value == t.data.value)
  {
    if GetSize(t) != destLength then Err(IndexOutOfRange)
    else if t.data.None? then Ok([])
    else Ok(t.data.value)
  }

  /**
   * `Deserialize`: an array as long as what remains (a negative length makes
   * `new byte[]` throw), filled by `ReadBytes(Span)`, which copies from the
   * window start.
   */
  function Deserialize(t: UnknownTable, r: BufferReaders.Reader): (res: Result<(UnknownTable, BufferReaders.Reader)>)
    ensures res.Ok? ==> res.value.0.tag == t.tag && res.value.0.data.Some?
  {
    if BufferReaders.Remains(r) < 0 then Err(Overflow)
    else
      var x :- BufferReaders.ReadBytesFromStart(r, BufferReaders.Remains(r));
      Ok((t.(data := Some(x.0)), x.1))
  }

  /** The same operation on the reader object: allocate (or reuse) the array, then fill it through the reader. */
  method DeserializeFrom(t: UnknownTable, reader: BufferReaderObjects.BufferReader) returns (res: Result<UnknownTable>)
    modifies reader
    ensures var spec := Deserialize(t, old(reader.State()));
      if spec.Ok? then res == Ok(spec.value.0) && reader.State() == spec.value.1
      else res == Err(spec.error) && reader.State() == old(reader.State())
  {
    var remains := reader.Remains();
    if remains < 0 {
      return Err(Overflow);
    }
    var target := new byte[remains];
    var filled := reader.ReadBytesInto(target);
    if filled.Err? {
      return Err(filled.error);
    }
    res := Ok(t.(data := Some(target[..])));
  }

  /**
   * Over a fresh window (the font engine hands each table a slice of its
   * own), parsing keeps every byte and serializing gives them back.
   */
  lemma {:induction false} RoundTrip(t: UnknownTable, bytes: seq<byte>)
    ensures Deserialize(t, BufferReaders.Fresh(bytes)) ==
      Ok((t.(data := Some(bytes)), BufferReaders.Reader(bytes, |bytes|)))
    ensures Serialize(t.(data := Some(bytes)), |bytes|) == Ok(bytes)
  {
    assert bytes[..|bytes|] == bytes;
  }

  /** Past the start of the window the parsed bytes are the window's first ones, not those at the cursor. */
  lemma {:induction false} ReadsFromWindowStart(t: UnknownTable, r: BufferReaders.Reader)
    requires r.cursor <= |r.buffer|
    ensures Deserialize(t, r) ==
      Ok((t.(data := Some(r.buffer[..|r.buffer| - r.cursor])), BufferReaders.Reader(r.buffer, |r.buffer|)))
  {
  }
}
