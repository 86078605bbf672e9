/**
 * The `post` table: a 32-byte header followed by an opaque body (the glyph
 * names of formats 2.0 and 2.5).  Parsing accepts five format numbers and
 * insists that exactly the two name-carrying formats have a body.
 */
module Post {
  import opened Wrappers
  import opened Bytes
  import opened Records
  import BufferReaders
  import FixedTable

  datatype PostHeader = PostHeader(
    format: i32, italicAngle: i32, underlinePosition: i16, underlineThickness: i16,
    isFixedPitch: u32, minMemType42: u32, maxMemType42: u32, minMemType1: u32, maxMemType1: u32)

  datatype PostTable = PostTable(header: PostHeader, body: seq<byte>)

  const HeaderLayout: Records.Layout := [I32, I32, I16, I16, U32, U32, U32, U32, U32]

  /** The Fixed format numbers 1.0, 2.0, 2.5, 3.0 and 4.0. */
  const Format1: i32 := 0x0001_0000
  const Format2: i32 := 0x0002_0000
  const Format25: i32 := 0x0002_5000
  const Format3: i32 := 0x0003_0000
  const Format4: i32 := 0x0004_0000

  predicate KnownFormat(format: int)
  {
    format == Format1 || format == Format2 || format == Format25 || format == Format3 || format == Format4
  }

  /** The formats that carry glyph names after the header. */
  predicate HasNames(format: int)
  {
    format == Format2 || format == Format25
  }

  lemma {:induction false} HeaderSize()
    ensures Size(HeaderLayout) == 32
  {
  }

  function Fields(h: PostHeader): (v: seq<int>)
    ensures Conforms(HeaderLayout, v)
  {
    [h.format, h.italicAngle, h.underlinePosition, h.underlineThickness,
     h.isFixedPitch, h.minMemType42, h.maxMemType42, h.minMemType1, h.maxMemType1]
  }

  function FromFields(v: seq<int>): PostHeader
    requires Conforms(HeaderLayout, v)
  {
    PostHeader(v[0], v[1], v[2], v[3], v[4], v[5], v[6], v[7], v[8])
  }

  function GetSize(p: PostTable): nat
  {
    32 + |p.body|
  }

  /**
   * `Serialize` into a destination of destLength bytes: ArgumentException
   * unless it is exactly the table's size; then the header's image and the
   * body after it.
   */
  function Serialize(p: PostTable, destLength: int): (res: Result<seq<byte>>)
    ensures res.Ok? <==> destLength == GetSize(p)
    ensures res.Err? ==> res.error == Argument
    ensures res.Ok? ==>
      |res.value| == destLength && res.value[32..] == p.body &&
      Decode(HeaderLayout, res.value[..32]) == Fields(p.header)
  {
    if destLength != GetSize(p) then Err(Argument)
    else
      HeaderSize();
      var header := FixedTable.Serialize(HeaderLayout, Fields(p.header));
      DropPrefix(header, p.body, 32);
      Ok(header + p.body)
  }

  /**
   * `Deserialize`: the header, then a check of its format, then the body:
   * whatever remains, which must be non-empty exactly for formats 2.0 and 2.5.
   */
  function Deserialize(r: BufferReaders.Reader): Result<(PostTable, BufferReaders.Reader)>
  {
    var h :- FixedTable.Deserialize(r, HeaderLayout);
    var header := FromFields(h.0);
    if !KnownFormat(header.format) then Err(NotSupported)
    else if BufferReaders.Remains(h.1) > 0 then
      if !HasNames(header.format) then Err(Argument)
      else
        var b :- BufferReaders.ReadBytesAsPossible(h.1);
        Ok((PostTable(header, b.0), b.1))
    else if HasNames(header.format) then Err(Argument)
    else Ok((PostTable(header, []), h.1))
  }

  /** The header whose image lies at the cursor. */
  function HeaderAt(r: BufferReaders.Reader): PostHeader
    requires r.cursor + 32 <= |r.buffer|
  {
    HeaderSize();
    DecodeConforms(HeaderLayout, r.buffer[r.cursor..r.cursor + 32]);
    FromFields(Decode(HeaderLayout, r.buffer[r.cursor..r.cursor + 32]))
  }

  /** A table `Deserialize` can return, and `Serialize` then writes back as parsed. */
  predicate WellFormed(p: PostTable)
  {
    KnownFormat(p.header.format) && (|p.body| > 0 <==> HasNames(p.header.format))
  }

  /**
   * What `Deserialize` accepts: at least a header; a known format, else
   * NotSupportedException; a body exactly for the name formats, else
   * ArgumentException.  What it returns is well formed and consumes the window.
   */
  lemma {:induction false} DeserializeChecks(r: BufferReaders.Reader)
    requires r.cursor <= |r.buffer|
    ensures BufferReaders.Remains(r) < 32 ==> Deserialize(r) == Err(IndexOutOfRange)
    ensures BufferReaders.Remains(r) >= 32 ==>
      var header := HeaderAt(r);
      var hasBody := BufferReaders.Remains(r) > 32;
      (!KnownFormat(header.format) ==> Deserialize(r) == Err(NotSupported)) &&
      (KnownFormat(header.format) && hasBody != HasNames(header.format) ==> Deserialize(r) == Err(Argument)) &&
      (KnownFormat(header.format) && hasBody == HasNames(header.format) ==>
        Deserialize(r) == Ok((PostTable(header, r.buffer[r.cursor + 32..]), BufferReaders.Reader(r.buffer, |r.buffer|))))
    ensures Deserialize(r).Ok? ==> WellFormed(Deserialize(r).value.0)
  {
    HeaderSize();
    if BufferReaders.Remains(r) == 32 {
      assert r.buffer[r.cursor + 32..] == [];
    }
  }

  /** A well-formed table, serialized into a buffer of its size, parses back to itself. */
  lemma {:induction false} RoundTrip(p: PostTable)
    requires WellFormed(p)
    ensures Serialize(p, GetSize(p)).Ok?
    ensures var image := Serialize(p, GetSize(p)).value;
      Deserialize(BufferReaders.Fresh(image)) == Ok((p, BufferReaders.Reader(image, |image|)))
  {
    HeaderSize();
    var image := Serialize(p, GetSize(p)).value;
    var r := BufferReaders.Fresh(image);
    DropPrefix(FixedTable.Serialize(HeaderLayout, Fields(p.header)), p.body, 32);
    FixedTable.RoundTrip(r, HeaderLayout, Fields(p.header));
    DeserializeChecks(r);
    assert FromFields(Fields(p.header)) == p.header;
  }
}
