/**
 * The `head` table: a 54-byte fixed record.  Validation copies the loca
 * format into indexToLocFormat; serialisation forces the three constant
 * fields; the flag and style accessors test and update single bits.
 */
module Head {
  import opened Wrappers
  import opened Bytes
  import opened Records
  import BufferReaders
  import FixedTable

  datatype HeadData = HeadData(
    version: i32, fontRevision: i32, checkSumAdjustment: u32, magicNumber: u32,
    flags: bv16, unitsPerEm: u16, created: i64, modified: i64,
    xMin: i16, yMin: i16, xMax: i16, yMax: i16,
    macStyle: bv16, lowestRecPPEM: u16, fontDirectionHint: i16,
    indexToLocFormat: i16, glyphDataFormat: i16)

  const Version: i32 := 0x0001_0000
  const MagicNumber: u32 := 0x5F0F_3CF5

  /** Field declaration order of TtfTableHeadData, in three groups. */
  const Group1: Records.Layout := [I32, I32, U32, U32, U16, U16]
  const Group2: Records.Layout := [I64, I64, I16, I16, I16, I16]
  const Group3: Records.Layout := [U16, U16, I16, I16, I16]

  function Layout(): Records.Layout
  {
    Group1 + Group2 + Group3
  }

  function Fields(d: HeadData): seq<int>
  {
    [d.version, d.fontRevision, d.checkSumAdjustment, d.magicNumber, d.flags as int, d.unitsPerEm] +
    [d.created, d.modified, d.xMin, d.yMin, d.xMax, d.yMax] +
    [d.macStyle as int, d.lowestRecPPEM, d.fontDirectionHint, d.indexToLocFormat, d.glyphDataFormat]
  }

  function FromFields(v: seq<int>): HeadData
    requires Conforms(Layout(), v)
  {
    HeadData(v[0], v[1], v[2], v[3], v[4] as bv16, v[5], v[6], v[7], v[8], v[9], v[10], v[11],
             v[12] as bv16, v[13], v[14], v[15], v[16])
  }

  lemma {:induction false} FieldsConform(d: HeadData)
    ensures Conforms(Layout(), Fields(d)) && FromFields(Fields(d)) == d
  {
    var v1 := [d.version, d.fontRevision, d.checkSumAdjustment, d.magicNumber, d.flags as int, d.unitsPerEm];
    var v2 := [d.created, d.modified, d.xMin, d.yMin, d.xMax, d.yMax];
    var v3 := [d.macStyle as int, d.lowestRecPPEM, d.fontDirectionHint, d.indexToLocFormat, d.glyphDataFormat];
    assert Conforms(Group1, v1) && Conforms(Group2, v2) && Conforms(Group3, v3);
    ConformsConcat(Group1, Group2, v1, v2);
    ConformsConcat(Group1 + Group2, Group3, v1 + v2, v3);
    BitsRoundTrip(d.flags);
    BitsRoundTrip(d.macStyle);
  }

  lemma {:induction false} Group1Size() ensures Size(Group1) == 20 {}
  lemma {:induction false} Group2Size() ensures Size(Group2) == 24 {}
  lemma {:induction false} Group3Size() ensures Size(Group3) == 10 {}

  /** `Marshal.SizeOf<TtfTableHeadData>()` is 54. */
  lemma {:induction false} SizeIs54()
    ensures Size(Layout()) == 54
  {
    Group1Size();
    Group2Size();
    Group3Size();
    SizeConcat(Group1, Group2);
    SizeConcat(Group1 + Group2, Group3);
  }

  /** `Validate`: indexToLocFormat becomes 0 for a short loca and 1 for a long one; nothing else changes. */
  function Validate(d: HeadData, locaLong: bool): (r: HeadData)
    ensures r.indexToLocFormat > 0 <==> locaLong
    ensures r.indexToLocFormat == 0 || r.indexToLocFormat == 1
    ensures r.(indexToLocFormat := d.indexToLocFormat) == d
  {
    d.(indexToLocFormat := if locaLong then 1 else 0)
  }

  /** The record `Serialize` writes: the three constant fields forced. */
  function Forced(d: HeadData): (r: HeadData)
    ensures r.version == Version && r.magicNumber == MagicNumber && r.glyphDataFormat == 0
    ensures r.(version := d.version, magicNumber := d.magicNumber, glyphDataFormat := d.glyphDataFormat) == d
  {
    d.(version := Version, magicNumber := MagicNumber, glyphDataFormat := 0)
  }

  /** The bytes `Serialize` writes: the forced record's image. */
  function Serialize(d: HeadData): (image: seq<byte>)
    ensures |image| == 54
  {
    FieldsConform(Forced(d));
    SizeIs54();
    FixedTable.Serialize(Layout(), Fields(Forced(d)))
  }

  /** `Deserialize`: one record read at the cursor. */
  function Deserialize(r: BufferReaders.Reader): Result<(HeadData, BufferReaders.Reader)>
  {
    var x :- FixedTable.Deserialize(r, Layout());
    Ok((FromFields(x.0), x.1))
  }

  /** Parsing the serialized bytes gives back the forced record and consumes all 54 bytes. */
  lemma {:induction false} RoundTrip(d: HeadData, rest: seq<byte>)
    ensures Deserialize(BufferReaders.Fresh(Serialize(d) + rest)) ==
      Ok((Forced(d), BufferReaders.Reader(Serialize(d) + rest, 54)))
  {
    FieldsConform(Forced(d));
    SizeIs54();
    FixedTable.RoundTripFresh(Layout(), Fields(Forced(d)), rest);
  }

  /** The word at bytes 8..11 of the image is checkSumAdjustment: the word the font engine zeroes and patches. */
  lemma {:induction false} AdjustmentAtOffset8(d: HeadData)
    ensures Serialize(d)[8..12] == BE32(d.checkSumAdjustment)
  {
    FieldsConform(Forced(d));
    var l := Layout();
    assert l[0] == I32 && l[1..][0] == I32 && l[2] == U32;
    assert Offset(l, 2) == 8;
    EncodeFieldAt(l, Fields(Forced(d)), 2, 8);
  }

  // ------------------------------------------------ flags and style bits

  /** `GetFlag(digit)`: bit `digit` of a 16-bit word. */
  function GetBit(word: bv16, digit: bv16): bool
    requires digit < 16
  {
    word & (1 << digit) != 0
  }

  /** `SetFlag(digit, value)`: that bit set or cleared. */
  function SetBit(word: bv16, digit: bv16, value: bool): bv16
    requires digit < 16
  {
    if value then word | (1 << digit) else word & !(1 << digit)
  }

  /** Setting a bit and reading it back gives the value set; every other bit is unchanged. */
  lemma {:induction false} SetGetBit(word: bv16, digit: bv16, value: bool, other: bv16)
    requires digit < 16 && other < 16
    ensures GetBit(SetBit(word, digit, value), digit) == value
    ensures other != digit ==> GetBit(SetBit(word, digit, value), other) == GetBit(word, other)
  {
  }

  /** The `(ushort)` cast back from the bit pattern keeps the pattern. */
  lemma {:induction false} BitsRoundTrip(b: bv16)
    ensures (b as int) as bv16 == b
  {
  }

  function GetFlag(d: HeadData, digit: bv16): bool
    requires digit < 16
  {
    GetBit(d.flags, digit)
  }

  function SetFlag(d: HeadData, digit: bv16, value: bool): (r: HeadData)
    requires digit < 16
    ensures r.(flags := d.flags) == d
    ensures GetFlag(r, digit) == value
    ensures forall other: bv16 :: other < 16 && other != digit ==> GetFlag(r, other) == GetFlag(d, other)
  {
    var b := SetBit(d.flags, digit, value);
    forall other: bv16 | other < 16 ensures GetBit(b, other) == (if other == digit then value else GetBit(d.flags, other)) {
      SetGetBit(d.flags, digit, value, other);
    }
    d.(flags := b)
  }

  function GetStyleFlag(d: HeadData, digit: bv16): bool
    requires digit < 16
  {
    GetBit(d.macStyle, digit)
  }

  function SetStyleFlag(d: HeadData, digit: bv16, value: bool): (r: HeadData)
    requires digit < 16
    ensures r.(macStyle := d.macStyle) == d
    ensures GetStyleFlag(r, digit) == value
    ensures forall other: bv16 :: other < 16 && other != digit ==> GetStyleFlag(r, other) == GetStyleFlag(d, other)
  {
    var b := SetBit(d.macStyle, digit, value);
    forall other: bv16 | other < 16 ensures GetBit(b, other) == (if other == digit then value else GetBit(d.macStyle, other)) {
      SetGetBit(d.macStyle, digit, value, other);
    }
    d.(macStyle := b)
  }

  /** The named direction hints, with their enum values. */
  datatype DirectionHintType = StronglyRTLAndNeutrals | OnlyStronglyRTL | Mixed | OnlyStronglyLTR | StronglyLTRAndNeutrals

  function HintValue(h: DirectionHintType): i16
  {
    match h
    case StronglyRTLAndNeutrals => -2
    case OnlyStronglyRTL => -1
    case Mixed => 0
    case OnlyStronglyLTR => 1
    case StronglyLTRAndNeutrals => 2
  }

  /** The `DirectionHint` getter: the enum whose value is fontDirectionHint, if any. */
  function GetDirectionHint(d: HeadData): (h: Option<DirectionHintType>)
    ensures h.Some? ==> HintValue(h.value) == d.fontDirectionHint
    ensures h.None? <==> !(-2 <= d.fontDirectionHint <= 2)
  {
    match d.fontDirectionHint
    case -2 => Some(StronglyRTLAndNeutrals)
    case -1 => Some(OnlyStronglyRTL)
    case 0 => Some(Mixed)
    case 1 => Some(OnlyStronglyLTR)
    case 2 => Some(StronglyLTRAndNeutrals)
    case _ => None
  }

  function SetDirectionHint(d: HeadData, h: DirectionHintType): (r: HeadData)
    ensures r.(fontDirectionHint := d.fontDirectionHint) == d
  {
    d.(fontDirectionHint := HintValue(h))
  }

  /** Setting the direction hint and reading it back gives the hint set. */
  lemma {:induction false} DirectionHintRoundTrip(d: HeadData, h: DirectionHintType)
    ensures GetDirectionHint(SetDirectionHint(d, h)) == Some(h)
  {
  }
}
