/**
 * TrueTypeTableFixed: a table that is one fixed record.  Its size is the
 * record's size, `Serialize` writes the record's image at the start of the
 * destination and `Deserialize` reads one record at the cursor.  The
 * tables built on it (head, hhea, maxp) force some fields first.
 */
module FixedTable {
  import opened Wrappers
  import opened Bytes
  import opened Records
  import BufferReaders

  /** The bytes `Serialize` writes: as many as the record's size, and they decode to the record. */
  function Serialize(layout: Layout, values: seq<int>): (image: seq<byte>)
    requires Conforms(layout, values)
    ensures |image| == Size(layout)
    ensures Decode(layout, image) == values
  {
    DecodeEncode(layout, values);
    Encode(layout, values)
  }

  /** `Deserialize`: one record at the cursor, or IndexOutOfRange when fewer bytes remain. */
  function Deserialize(r: BufferReaders.Reader, layout: Layout): (res: Result<(seq<int>, BufferReaders.Reader)>)
    ensures res.Ok? <==> BufferReaders.Remains(r) >= Size(layout)
    ensures res.Err? ==> res.error == IndexOutOfRange
    ensures res.Ok? ==>
      && Conforms(layout, res.value.0)
      && res.value.1 == BufferReaders.Advance(r, Size(layout))
      && res.value.0 == Decode(layout, r.buffer[r.cursor..r.cursor + Size(layout)])
  {
    if BufferReaders.Remains(r) >= Size(layout) then
      DecodeConforms(layout, r.buffer[r.cursor..r.cursor + Size(layout)]);
      BufferReaders.ReadRecord(r, layout)
    else
      BufferReaders.ReadRecord(r, layout)
  }

  /** Reading at a cursor where a record's image lies gives the record back and moves past it. */
  lemma {:induction false} RoundTrip(r: BufferReaders.Reader, layout: Layout, values: seq<int>)
    requires Conforms(layout, values)
    requires r.cursor + Size(layout) <= |r.buffer|
    requires r.buffer[r.cursor..r.cursor + Size(layout)] == Serialize(layout, values)
    ensures Deserialize(r, layout) == Ok((values, BufferReaders.Advance(r, Size(layout))))
  {
  }

  /** A window that starts with the image of values reads them back and stops after the image. */
  lemma {:induction false} RoundTripFront(w: seq<byte>, layout: Layout, values: seq<int>)
    requires Conforms(layout, values)
    requires Size(layout) <= |w| && w[..Size(layout)] == Serialize(layout, values)
    ensures Deserialize(BufferReaders.Fresh(w), layout) == Ok((values, BufferReaders.Reader(w, Size(layout))))
  {
    RoundTrip(BufferReaders.Fresh(w), layout, values);
  }

  /** The common case: the image at the start of a fresh window, whatever follows it. */
  lemma {:induction false} RoundTripFresh(layout: Layout, values: seq<int>, rest: seq<byte>)
    requires Conforms(layout, values)
    ensures Deserialize(BufferReaders.Fresh(Serialize(layout, values) + rest), layout) ==
      Ok((values, BufferReaders.Reader(Serialize(layout, values) + rest, Size(layout))))
  {
    var r := BufferReaders.Fresh(Serialize(layout, values) + rest);
    assert r.buffer[r.cursor..r.cursor + Size(layout)] == Serialize(layout, values);
    RoundTrip(r, layout, values);
  }
}
