/**
 * The `OS/2` table: a 78-byte version-0 record followed by the appendices
 * its version enables (8 bytes from version 1, 10 more from version 2, 4
 * more from version 5).  Validation derives the sub- and superscript
 * sizes, the strikeout, the typographic and Windows metrics from hhea,
 * head and post, the first and last character from the Unicode format-4
 * cmap subtable, and places the Unicode-range and code-page bits.
 *
 * Which Unicode ranges a font covers and which code pages it supports
 * come from a scan over a static range list and from the system's
 * encoding tables; the model takes their outcome (the selected bit
 * numbers and code-page positions) as inputs, and the average character
 * width, which is computed in floating point, likewise.
 */
module Os2 {
  import opened Wrappers
  import opened Bytes
  import opened Records
  import BufferReaders
  import FixedTable
  import Hhea
  import Head
  import Post
  import Cmap
  import CmapSubtables

  datatype Os2V0 = Os2V0(
    version: u16, xAvgCharWidth: i16, usWeightClass: u16, usWidthClass: u16, fsType: u16,
    ySubscriptXSize: i16, ySubscriptYSize: i16, ySubscriptXOffset: i16, ySubscriptYOffset: i16,
    ySuperscriptXSize: i16, ySuperscriptYSize: i16, ySuperscriptXOffset: i16, ySuperscriptYOffset: i16,
    yStrikeoutSize: i16, yStrikeoutPosition: i16, sFamilyClass: i16,
    bFamilyType: byte, bSerifType: byte, bWeight: byte, bProportion: byte, bContrast: byte,
    bStrokeVariation: byte, bArmStyle: byte, bLetterform: byte, bMidline: byte, bXHeight: byte,
    ulUnicodeRange1: u32, ulUnicodeRange2: u32, ulUnicodeRange3: u32, ulUnicodeRange4: u32,
    achVendId: u32, fsSelection: u16, usFirstCharIndex: u16, usLastCharIndex: u16,
    sTypoAscender: i16, sTypoDescender: i16, sTypoLineGap: i16, usWinAscent: u16, usWinDescent: u16)

  datatype Os2V1 = Os2V1(ulCodePageRange1: u32, ulCodePageRange2: u32)

  datatype Os2V2 = Os2V2(sxHeight: i16, sCapHeight: i16, usDefaultChar: u16, usBreakChar: u16, usMaxContext: u16)

  datatype Os2V5 = Os2V5(usLowerOpticalPointSize: u16, usUpperOpticalPointSize: u16)

  datatype Os2Table = Os2Table(v0: Os2V0, v1: Os2V1, v2: Os2V2, v5: Os2V5)

  // ------------------------------------------------------------ record layouts

  /**
   * Field declaration order of TtfTableOs2DataV0, in seven groups of at
   * most six fields; the record's image is the groups' images back to back.
   */
  const Group1: Layout := [U16, I16, U16, U16, U16, I16]
  const Group2: Layout := [I16, I16, I16, I16, I16, I16]
  const Group3: Layout := [I16, I16, I16, I16, U8, U8]
  const Group4: Layout := [U8, U8, U8, U8, U8, U8]
  const Group5: Layout := [U8, U8, U32, U32, U32, U32]
  const Group6: Layout := [U32, U16, U16, U16, I16, I16]
  const Group7: Layout := [I16, U16, U16]

  const V1Layout: Layout := [U32, U32]
  const V2Layout: Layout := [I16, I16, U16, U16, U16]
  const V5Layout: Layout := [U16, U16]

  function Fields1(d: Os2V0): (v: seq<int>)
    ensures Conforms(Group1, v)
  {
    [d.version, d.xAvgCharWidth, d.usWeightClass, d.usWidthClass, d.fsType, d.ySubscriptXSize]
  }

  function Fields2(d: Os2V0): (v: seq<int>)
    ensures Conforms(Group2, v)
  {
    [d.ySubscriptYSize, d.ySubscriptXOffset, d.ySubscriptYOffset, d.ySuperscriptXSize, d.ySuperscriptYSize,
     d.ySuperscriptXOffset]
  }

  function Fields3(d: Os2V0): (v: seq<int>)
    ensures Conforms(Group3, v)
  {
    [d.ySuperscriptYOffset, d.yStrikeoutSize, d.yStrikeoutPosition, d.sFamilyClass, d.bFamilyType, d.bSerifType]
  }

  function Fields4(d: Os2V0): (v: seq<int>)
    ensures Conforms(Group4, v)
  {
    [d.bWeight, d.bProportion, d.bContrast, d.bStrokeVariation, d.bArmStyle, d.bLetterform]
  }

  function Fields5(d: Os2V0): (v: seq<int>)
    ensures Conforms(Group5, v)
  {
    [d.bMidline, d.bXHeight, d.ulUnicodeRange1, d.ulUnicodeRange2, d.ulUnicodeRange3,
     d.ulUnicodeRange4]
  }

  function Fields6(d: Os2V0): (v: seq<int>)
    ensures Conforms(Group6, v)
  {
    [d.achVendId, d.fsSelection, d.usFirstCharIndex, d.usLastCharIndex, d.sTypoAscender, d.sTypoDescender]
  }

  function Fields7(d: Os2V0): (v: seq<int>)
    ensures Conforms(Group7, v)
  {
    [d.sTypoLineGap, d.usWinAscent, d.usWinDescent]
  }

  /** The version-0 record from the seven groups' values. */
  function V0Of(g1: seq<int>, g2: seq<int>, g3: seq<int>, g4: seq<int>, g5: seq<int>, g6: seq<int>, g7: seq<int>): Os2V0
    requires Conforms(Group1, g1) && Conforms(Group2, g2) && Conforms(Group3, g3) && Conforms(Group4, g4)
    requires Conforms(Group5, g5) && Conforms(Group6, g6) && Conforms(Group7, g7)
  {
    Os2V0(g1[0], g1[1], g1[2], g1[3], g1[4], g1[5], g2[0], g2[1], g2[2], g2[3], g2[4], g2[5],
          g3[0], g3[1], g3[2], g3[3], g3[4], g3[5], g4[0], g4[1], g4[2], g4[3], g4[4], g4[5],
          g5[0], g5[1], g5[2], g5[3], g5[4], g5[5],
          g6[0], g6[1], g6[2], g6[3], g6[4], g6[5], g7[0], g7[1], g7[2])
  }

  lemma {:induction false} V0Inverse(d: Os2V0)
    ensures V0Of(Fields1(d), Fields2(d), Fields3(d), Fields4(d), Fields5(d), Fields6(d), Fields7(d)) == d
  {
  }

  function V1Fields(d: Os2V1): (v: seq<int>)
    ensures Conforms(V1Layout, v)
  {
    [d.ulCodePageRange1, d.ulCodePageRange2]
  }

  function V1Of(v: seq<int>): (d: Os2V1)
    requires Conforms(V1Layout, v)
  {
    Os2V1(v[0], v[1])
  }

  function V2Fields(d: Os2V2): (v: seq<int>)
    ensures Conforms(V2Layout, v)
  {
    [d.sxHeight, d.sCapHeight, d.usDefaultChar, d.usBreakChar, d.usMaxContext]
  }

  function V2Of(v: seq<int>): Os2V2
    requires Conforms(V2Layout, v)
  {
    Os2V2(v[0], v[1], v[2], v[3], v[4])
  }

  function V5Fields(d: Os2V5): (v: seq<int>)
    ensures Conforms(V5Layout, v)
  {
    [d.usLowerOpticalPointSize, d.usUpperOpticalPointSize]
  }

  function V5Of(v: seq<int>): Os2V5
    requires Conforms(V5Layout, v)
  {
    Os2V5(v[0], v[1])
  }

  lemma {:induction false} AppendicesInverse(a: Os2V1, b: Os2V2, c: Os2V5)
    ensures V1Of(V1Fields(a)) == a && V2Of(V2Fields(b)) == b && V5Of(V5Fields(c)) == c
  {
  }

  lemma {:induction false} Size1() ensures Size(Group1) == 12 {}
  lemma {:induction false} Size2() ensures Size(Group2) == 12 {}
  lemma {:induction false} Size3() ensures Size(Group3) == 10 {}
  lemma {:induction false} Size4() ensures Size(Group4) == 6 {}
  lemma {:induction false} Size5() ensures Size(Group5) == 18 {}
  lemma {:induction false} Size6() ensures Size(Group6) == 14 {}
  lemma {:induction false} Size7() ensures Size(Group7) == 6 {}
  lemma {:induction false} AppendixSizes() ensures Size(V1Layout) == 8 && Size(V2Layout) == 10 && Size(V5Layout) == 4 {}

  // ------------------------------------------------------------ constructor, size, serialisation

  const ZeroV0: Os2V0 := Os2V0(0, 0, 0, 0, 0, 0, 0, 0, 0, 0, 0, 0, 0, 0, 0, 0, 0, 0, 0, 0, 0, 0, 0, 0, 0, 0,
                                0, 0, 0, 0, 0, 0, 0, 0, 0, 0, 0, 0, 0)

  /** `new TtfTableOs2()`: version 1, weight class 400 (normal), width class 5 (medium), every other field 0. */
  function New(): (t: Os2Table)
    ensures t.v0.version == 1 && t.v0.usWeightClass == 400 && t.v0.usWidthClass == 5
    ensures t.v0.(version := 0, usWeightClass := 0, usWidthClass := 0) == ZeroV0
    ensures t.v1 == Os2V1(0, 0) && t.v2 == Os2V2(0, 0, 0, 0, 0) && t.v5 == Os2V5(0, 0)
    ensures GetSize(t) == 86
  {
    Os2Table(ZeroV0.(version := 1, usWeightClass := 400, usWidthClass := 5),
             Os2V1(0, 0), Os2V2(0, 0, 0, 0, 0), Os2V5(0, 0))
  }

  /** `GetSize`: the version-0 record and each appendix the version enables. */
  function GetSize(t: Os2Table): nat
  {
    78 + (if t.v0.version >= 1 then 8 else 0) + (if t.v0.version >= 2 then 10 else 0)
       + (if t.v0.version >= 5 then 4 else 0)
  }

  /** The 78 bytes of the version-0 record: its seven groups' images in order. */
  function V0Image(d: Os2V0): (image: seq<byte>)
    ensures |image| == 78
  {
    Size1(); Size2(); Size3(); Size4(); Size5(); Size6(); Size7();
    EncodeSize(Group1, Fields1(d)); EncodeSize(Group2, Fields2(d)); EncodeSize(Group3, Fields3(d));
    EncodeSize(Group4, Fields4(d)); EncodeSize(Group5, Fields5(d)); EncodeSize(Group6, Fields6(d));
    EncodeSize(Group7, Fields7(d));
    Encode(Group1, Fields1(d)) + Encode(Group2, Fields2(d)) + Encode(Group3, Fields3(d)) +
    Encode(Group4, Fields4(d)) + Encode(Group5, Fields5(d)) + Encode(Group6, Fields6(d)) +
    Encode(Group7, Fields7(d))
  }

  /** The version-1, version-2 and version-5 appendices' images. */
  function V1Image(d: Os2V1): (image: seq<byte>)
    ensures |image| == 8
  {
    AppendixSizes();
    EncodeSize(V1Layout, V1Fields(d));
    Encode(V1Layout, V1Fields(d))
  }

  function V2Image(d: Os2V2): (image: seq<byte>)
    ensures |image| == 10
  {
    AppendixSizes();
    EncodeSize(V2Layout, V2Fields(d));
    Encode(V2Layout, V2Fields(d))
  }

  function V5Image(d: Os2V5): (image: seq<byte>)
    ensures |image| == 4
  {
    AppendixSizes();
    EncodeSize(V5Layout, V5Fields(d));
    Encode(V5Layout, V5Fields(d))
  }

  /** The bytes of the appendices a version enables, in order. */
  function Appendices(t: Os2Table): seq<byte>
  {
    (if t.v0.version >= 1 then V1Image(t.v1) else []) +
    (if t.v0.version >= 2 then V2Image(t.v2) else []) +
    (if t.v0.version >= 5 then V5Image(t.v5) else [])
  }

  /**
   * `Serialize` into a destination of destLength bytes: ArgumentException
   * unless it is exactly the table's size; then the version-0 record and
   * the appendices its version enables, back to back.
   */
  function Serialize(t: Os2Table, destLength: int): (res: Result<seq<byte>>)
    ensures res.Ok? <==> destLength == GetSize(t)
    ensures res.Err? ==> res.error == Argument
    ensures res.Ok? ==> |res.value| == destLength && res.value[..78] == V0Image(t.v0)
    ensures res.Ok? && t.v0.version >= 1 ==> res.value[78..86] == V1Image(t.v1)
    ensures res.Ok? && t.v0.version >= 2 ==> res.value[86..96] == V2Image(t.v2)
    ensures res.Ok? && t.v0.version >= 5 ==> res.value[96..100] == V5Image(t.v5)
  {
    if destLength != GetSize(t) then Err(Argument)
    else
      AppendixParts(V0Image(t.v0), t);
      Ok(V0Image(t.v0) + Appendices(t))
  }

  /** Where each record lies in the table's image, whatever the 78 bytes in front of the appendices. */
  lemma {:induction false} AppendixParts(a: seq<byte>, t: Os2Table)
    requires |a| == 78
    ensures var image := a + Appendices(t);
      && |image| == GetSize(t)
      && image[..78] == a
      && (t.v0.version >= 1 ==> image[78..86] == V1Image(t.v1))
      && (t.v0.version >= 2 ==> image[86..96] == V2Image(t.v2))
      && (t.v0.version >= 5 ==> image[96..100] == V5Image(t.v5))
  {
    var b := if t.v0.version >= 1 then V1Image(t.v1) else [];
    var c := if t.v0.version >= 2 then V2Image(t.v2) else [];
    var e := if t.v0.version >= 5 then V5Image(t.v5) else [];
    assert Appendices(t) == b + c + e;
    Concat4(a, b, c, e);
  }

  /** The four parts of a concatenation, found back by slicing. */
  lemma {:induction false} Concat4(a: seq<byte>, b: seq<byte>, c: seq<byte>, e: seq<byte>)
    ensures var x := a + (b + c + e);
      && |x| == |a| + |b| + |c| + |e|
      && x[..|a|] == a && x[|a|..|a| + |b|] == b
      && x[|a| + |b|..|a| + |b| + |c|] == c && x[|a| + |b| + |c|..] == e
  {
    var x := a + (b + c + e);
    assert x[..|a|] == a;
    assert x[|a|..|a| + |b|] == b;
    assert x[|a| + |b|..|a| + |b| + |c|] == c;
    assert x[|a| + |b| + |c|..] == e;
  }

  /**
   * `ReadUnaligned(out v0)`: IndexOutOfRangeException when fewer than 78
   * bytes remain; otherwise the record's groups one after another.
   */
  function ReadV0(r: BufferReaders.Reader): (res: Result<(Os2V0, BufferReaders.Reader)>)
    ensures res.Err? ==> res.error == IndexOutOfRange
    ensures BufferReaders.Remains(r) < 78 ==> res.Err?
  {
    if BufferReaders.Remains(r) < 78 then Err(IndexOutOfRange)
    else
      var a1 :- FixedTable.Deserialize(r, Group1);
      var a2 :- FixedTable.Deserialize(a1.1, Group2);
      var a3 :- FixedTable.Deserialize(a2.1, Group3);
      var a4 :- FixedTable.Deserialize(a3.1, Group4);
      var a5 :- FixedTable.Deserialize(a4.1, Group5);
      var a6 :- FixedTable.Deserialize(a5.1, Group6);
      var a7 :- FixedTable.Deserialize(a6.1, Group7);
      Ok((V0Of(a1.0, a2.0, a3.0, a4.0, a5.0, a6.0, a7.0), a7.1))
  }

  function ReadV1(r: BufferReaders.Reader): Result<(Os2V1, BufferReaders.Reader)>
  {
    var x :- FixedTable.Deserialize(r, V1Layout);
    Ok((V1Of(x.0), x.1))
  }

  function ReadV2(r: BufferReaders.Reader): Result<(Os2V2, BufferReaders.Reader)>
  {
    var x :- FixedTable.Deserialize(r, V2Layout);
    Ok((V2Of(x.0), x.1))
  }

  function ReadV5(r: BufferReaders.Reader): Result<(Os2V5, BufferReaders.Reader)>
  {
    var x :- FixedTable.Deserialize(r, V5Layout);
    Ok((V5Of(x.0), x.1))
  }

  /**
   * `Deserialize` on an object holding `prior`: the version-0 record at the
   * cursor, then each appendix its version enables; an appendix that is
   * not read keeps its previous value.  Too few bytes for a record is
   * IndexOutOfRangeException.
   */
  function Deserialize(prior: Os2Table, r: BufferReaders.Reader): Result<(Os2Table, BufferReaders.Reader)>
  {
    var a :- ReadV0(r);
    ReadAppendices(prior, a.0, a.1)
  }

  /** The appendices the version-0 record's version enables, read after it. */
  function ReadAppendices(prior: Os2Table, v0: Os2V0, r: BufferReaders.Reader): Result<(Os2Table, BufferReaders.Reader)>
  {
    var b :- if v0.version >= 1 then ReadV1(r) else Ok((prior.v1, r));
    var c :- if v0.version >= 2 then ReadV2(b.1) else Ok((prior.v2, b.1));
    var e :- if v0.version >= 5 then ReadV5(c.1) else Ok((prior.v5, c.1));
    Ok((Os2Table(v0, b.0, c.0, e.0), e.1))
  }

  /** The table `Deserialize` leaves in an object holding `prior`: the read records, and prior's unread appendices. */
  function Reloaded(t: Os2Table, prior: Os2Table): Os2Table
  {
    Os2Table(t.v0,
             if t.v0.version >= 1 then t.v1 else prior.v1,
             if t.v0.version >= 2 then t.v2 else prior.v2,
             if t.v0.version >= 5 then t.v5 else prior.v5)
  }

  /** A record's image at the cursor reads back as the record and moves the cursor past it. */
  lemma {:induction false} ReadAt(image: seq<byte>, at: nat, layout: Layout, values: seq<int>)
    requires Conforms(layout, values)
    requires at + Size(layout) <= |image| && image[at..at + Size(layout)] == Encode(layout, values)
    ensures FixedTable.Deserialize(BufferReaders.Reader(image, at), layout) ==
      Ok((values, BufferReaders.Reader(image, at + Size(layout))))
  {
    FixedTable.RoundTrip(BufferReaders.Reader(image, at), layout, values);
  }

  /** Where each group lies in the version-0 record's image. */
  lemma {:induction false} V0Parts(d: Os2V0, image: seq<byte>)
    requires |image| >= 78 && image[..78] == V0Image(d)
    ensures image[0..12] == Encode(Group1, Fields1(d))
    ensures image[12..24] == Encode(Group2, Fields2(d))
    ensures image[24..34] == Encode(Group3, Fields3(d))
    ensures image[34..40] == Encode(Group4, Fields4(d))
    ensures image[40..58] == Encode(Group5, Fields5(d))
    ensures image[58..72] == Encode(Group6, Fields6(d))
    ensures image[72..78] == Encode(Group7, Fields7(d))
  {
    Size1(); Size2(); Size3(); Size4(); Size5(); Size6(); Size7();
    EncodeSize(Group1, Fields1(d)); EncodeSize(Group2, Fields2(d)); EncodeSize(Group3, Fields3(d));
    EncodeSize(Group4, Fields4(d)); EncodeSize(Group5, Fields5(d)); EncodeSize(Group6, Fields6(d));
    EncodeSize(Group7, Fields7(d));
    Slices7(image, Encode(Group1, Fields1(d)), Encode(Group2, Fields2(d)), Encode(Group3, Fields3(d)),
      Encode(Group4, Fields4(d)), Encode(Group5, Fields5(d)), Encode(Group6, Fields6(d)), Encode(Group7, Fields7(d)));
  }

  /** Seven parts of 12, 12, 10, 6, 18, 14 and 6 bytes at the front of a sequence, found back by slicing. */
  lemma {:induction false} Slices7(x: seq<byte>, s1: seq<byte>, s2: seq<byte>, s3: seq<byte>, s4: seq<byte>,
                                   s5: seq<byte>, s6: seq<byte>, s7: seq<byte>)
    requires |s1| == 12 && |s2| == 12 && |s3| == 10 && |s4| == 6 && |s5| == 18 && |s6| == 14 && |s7| == 6
    requires |x| >= 78 && x[..78] == s1 + s2 + s3 + s4 + s5 + s6 + s7
    ensures x[0..12] == s1 && x[12..24] == s2 && x[24..34] == s3 && x[34..40] == s4
    ensures x[40..58] == s5 && x[58..72] == s6 && x[72..78] == s7
  {
    var y := x[..78];
    assert x[0..12] == y[0..12] == s1;
    assert x[12..24] == y[12..24] == s2;
    assert x[24..34] == y[24..34] == s3;
    assert x[34..40] == y[34..40] == s4;
    assert x[40..58] == y[40..58] == s5;
    assert x[58..72] == y[58..72] == s6;
    assert x[72..78] == y[72..78] == s7;
  }

  /** Reading the version-0 record from its image gives it back. */
  lemma {:induction false} V0RoundTrip(d: Os2V0, image: seq<byte>)
    requires |image| >= 78 && image[..78] == V0Image(d)
    ensures ReadV0(BufferReaders.Reader(image, 0)) == Ok((d, BufferReaders.Reader(image, 78)))
  {
    V0Parts(d, image);
    ReadFront(d, image);
    ReadBack(d, image);
    ReadGroups(image, Fields1(d), Fields2(d), Fields3(d), Fields4(d), Fields5(d), Fields6(d), Fields7(d));
    V0Inverse(d);
  }

  /** The first four groups read back at their offsets. */
  lemma {:induction false} ReadFront(d: Os2V0, image: seq<byte>)
    requires |image| >= 78
    requires image[0..12] == Encode(Group1, Fields1(d)) && image[12..24] == Encode(Group2, Fields2(d))
    requires image[24..34] == Encode(Group3, Fields3(d)) && image[34..40] == Encode(Group4, Fields4(d))
    ensures FixedTable.Deserialize(BufferReaders.Reader(image, 0), Group1) == Ok((Fields1(d), BufferReaders.Reader(image, 12)))
    ensures FixedTable.Deserialize(BufferReaders.Reader(image, 12), Group2) == Ok((Fields2(d), BufferReaders.Reader(image, 24)))
    ensures FixedTable.Deserialize(BufferReaders.Reader(image, 24), Group3) == Ok((Fields3(d), BufferReaders.Reader(image, 34)))
    ensures FixedTable.Deserialize(BufferReaders.Reader(image, 34), Group4) == Ok((Fields4(d), BufferReaders.Reader(image, 40)))
  {
    Size1(); Size2(); Size3(); Size4();
    ReadAt(image, 0, Group1, Fields1(d));
    ReadAt(image, 12, Group2, Fields2(d));
    ReadAt(image, 24, Group3, Fields3(d));
    ReadAt(image, 34, Group4, Fields4(d));
  }

  /** The last three groups read back at their offsets. */
  lemma {:induction false} ReadBack(d: Os2V0, image: seq<byte>)
    requires |image| >= 78
    requires image[40..58] == Encode(Group5, Fields5(d)) && image[58..72] == Encode(Group6, Fields6(d))
    requires image[72..78] == Encode(Group7, Fields7(d))
    ensures FixedTable.Deserialize(BufferReaders.Reader(image, 40), Group5) == Ok((Fields5(d), BufferReaders.Reader(image, 58)))
    ensures FixedTable.Deserialize(BufferReaders.Reader(image, 58), Group6) == Ok((Fields6(d), BufferReaders.Reader(image, 72)))
    ensures FixedTable.Deserialize(BufferReaders.Reader(image, 72), Group7) == Ok((Fields7(d), BufferReaders.Reader(image, 78)))
  {
    Size5(); Size6(); Size7();
    ReadAt(image, 40, Group5, Fields5(d));
    ReadAt(image, 58, Group6, Fields6(d));
    ReadAt(image, 72, Group7, Fields7(d));
  }

  /** ReadV0 on groups that each read back at their offsets. */
  lemma {:induction false} ReadGroups(image: seq<byte>, g1: seq<int>, g2: seq<int>, g3: seq<int>, g4: seq<int>,
                                      g5: seq<int>, g6: seq<int>, g7: seq<int>)
    requires |image| >= 78
    requires Conforms(Group1, g1) && Conforms(Group2, g2) && Conforms(Group3, g3) && Conforms(Group4, g4)
    requires Conforms(Group5, g5) && Conforms(Group6, g6) && Conforms(Group7, g7)
    requires FixedTable.Deserialize(BufferReaders.Reader(image, 0), Group1) == Ok((g1, BufferReaders.Reader(image, 12)))
    requires FixedTable.Deserialize(BufferReaders.Reader(image, 12), Group2) == Ok((g2, BufferReaders.Reader(image, 24)))
    requires FixedTable.Deserialize(BufferReaders.Reader(image, 24), Group3) == Ok((g3, BufferReaders.Reader(image, 34)))
    requires FixedTable.Deserialize(BufferReaders.Reader(image, 34), Group4) == Ok((g4, BufferReaders.Reader(image, 40)))
    requires FixedTable.Deserialize(BufferReaders.Reader(image, 40), Group5) == Ok((g5, BufferReaders.Reader(image, 58)))
    requires FixedTable.Deserialize(BufferReaders.Reader(image, 58), Group6) == Ok((g6, BufferReaders.Reader(image, 72)))
    requires FixedTable.Deserialize(BufferReaders.Reader(image, 72), Group7) == Ok((g7, BufferReaders.Reader(image, 78)))
    ensures ReadV0(BufferReaders.Reader(image, 0)) ==
      Ok((V0Of(g1, g2, g3, g4, g5, g6, g7), BufferReaders.Reader(image, 78)))
  {
  }

  /**
   * Serialising into a destination of the table's size and parsing those
   * bytes back, into an object holding any prior value, restores the
   * version-0 record and every appendix the version enables, and consumes
   * the whole image.
   */
  lemma {:induction false} RoundTrip(t: Os2Table, prior: Os2Table)
    ensures Serialize(t, GetSize(t)).Ok?
    ensures var image := Serialize(t, GetSize(t)).value;
      Deserialize(prior, BufferReaders.Fresh(image)) == Ok((Reloaded(t, prior), BufferReaders.Reader(image, |image|)))
  {
    var image := Serialize(t, GetSize(t)).value;
    V0RoundTrip(t.v0, image);
    ReloadFrom(image, t, prior);
  }

  /** Reading the table from an image whose records are where Serialize puts them. */
  lemma {:induction false} ReloadFrom(image: seq<byte>, t: Os2Table, prior: Os2Table)
    requires |image| == GetSize(t)
    requires t.v0.version >= 1 ==> image[78..86] == V1Image(t.v1)
    requires t.v0.version >= 2 ==> image[86..96] == V2Image(t.v2)
    requires t.v0.version >= 5 ==> image[96..100] == V5Image(t.v5)
    ensures ReadAppendices(prior, t.v0, BufferReaders.Reader(image, 78)) ==
      Ok((Reloaded(t, prior), BufferReaders.Reader(image, |image|)))
  {
    AppendixSizes();
    AppendicesInverse(t.v1, t.v2, t.v5);
    if t.v0.version >= 1 {
      ReadAt(image, 78, V1Layout, V1Fields(t.v1));
    }
    if t.v0.version >= 2 {
      ReadAt(image, 86, V2Layout, V2Fields(t.v2));
    }
    if t.v0.version >= 5 {
      ReadAt(image, 96, V5Layout, V5Fields(t.v5));
    }
  }

  /** A window shorter than the version-0 record fails with IndexOutOfRangeException. */
  lemma {:induction false} DeserializeShort(prior: Os2Table, r: BufferReaders.Reader)
    requires BufferReaders.Remains(r) < 78
    ensures Deserialize(prior, r) == Err(IndexOutOfRange)
  {
  }

  // ------------------------------------------------------------ first and last character

  /** `segEndValid`: the segment's end code, capped at 0xFFFD. */
  function ValidEnd(seg: CmapSubtables.Segment): u16
  {
    if seg.endCode <= 0xFFFD then seg.endCode else 0xFFFD
  }

  /** `firstChar` after the loop: starts at 0xFFFF and each smaller start code lowers it. */
  function FirstChar(segs: seq<CmapSubtables.Segment>): u16
  {
    if |segs| == 0 then 0xFFFF
    else
      var m := FirstChar(segs[..|segs| - 1]);
      var s := segs[|segs| - 1].startCode;
      if s < m then s else m
  }

  /** `lastChar` after the loop: starts at 0 and each non-empty capped segment end above it raises it. */
  function LastChar(segs: seq<CmapSubtables.Segment>): u16
  {
    if |segs| == 0 then 0
    else
      var m := LastChar(segs[..|segs| - 1]);
      var seg := segs[|segs| - 1];
      if seg.startCode <= ValidEnd(seg) && m < ValidEnd(seg) then ValidEnd(seg) else m
  }

  /** FirstChar is the least start code, or 0xFFFF when that is smaller or there are no segments. */
  lemma {:induction false} FirstCharIsMinimum(segs: seq<CmapSubtables.Segment>)
    ensures forall i :: 0 <= i < |segs| ==> FirstChar(segs) <= segs[i].startCode
    ensures FirstChar(segs) == 0xFFFF || exists i :: 0 <= i < |segs| && segs[i].startCode == FirstChar(segs)
  {
    if |segs| > 0 {
      var init := segs[..|segs| - 1];
      FirstCharIsMinimum(init);
      assert forall i :: 0 <= i < |init| ==> init[i] == segs[i];
      if FirstChar(init) != 0xFFFF && FirstChar(segs) == FirstChar(init) {
        var j :| 0 <= j < |init| && init[j].startCode == FirstChar(init);
        assert segs[j].startCode == FirstChar(segs);
      }
    }
  }

  /**
   * LastChar is the greatest capped end code among the segments whose start
   * does not exceed it, or 0 when there is none; it never exceeds 0xFFFD.
   */
  lemma {:induction false} LastCharIsMaximum(segs: seq<CmapSubtables.Segment>)
    ensures forall i :: 0 <= i < |segs| && segs[i].startCode <= ValidEnd(segs[i]) ==>
      ValidEnd(segs[i]) <= LastChar(segs)
    ensures LastChar(segs) == 0 ||
      exists i :: 0 <= i < |segs| && segs[i].startCode <= ValidEnd(segs[i]) && ValidEnd(segs[i]) == LastChar(segs)
    ensures LastChar(segs) <= 0xFFFD
  {
    if |segs| > 0 {
      var init := segs[..|segs| - 1];
      LastCharIsMaximum(init);
      assert forall i :: 0 <= i < |init| ==> init[i] == segs[i];
      if LastChar(init) != 0 && LastChar(segs) == LastChar(init) {
        var j :| 0 <= j < |init| && init[j].startCode <= ValidEnd(init[j]) && ValidEnd(init[j]) == LastChar(init);
        assert segs[j].startCode <= ValidEnd(segs[j]) && ValidEnd(segs[j]) == LastChar(segs);
      }
    }
  }

  /** The running first/last character loop over the segments. */
  method CharRange(segs: seq<CmapSubtables.Segment>) returns (firstChar: u16, lastChar: u16)
    ensures firstChar == FirstChar(segs) && lastChar == LastChar(segs)
  {
    firstChar, lastChar := 0xFFFF, 0;
    var i := 0;
    while i < |segs|
      invariant 0 <= i <= |segs|
      invariant firstChar == FirstChar(segs[..i]) && lastChar == LastChar(segs[..i])
    {
      assert segs[..i + 1][..i] == segs[..i];
      var segEndValid := ValidEnd(segs[i]);
      if segs[i].startCode < firstChar {
        firstChar := segs[i].startCode;
      }
      if segs[i].startCode <= segEndValid && lastChar < segEndValid {
        lastChar := segEndValid;
      }
      i := i + 1;
    }
    assert segs[..|segs|] == segs;
  }

  // ------------------------------------------------------------ Unicode-range and code-page bits

  /** ulUnicodeRange1..4 as bit vectors. */
  datatype UnicodeRanges = UnicodeRanges(r1: bv32, r2: bv32, r3: bv32, r4: bv32)

  /** Word k (0..3) of the ranges: ulUnicodeRange(k + 1). */
  function Word(u: UnicodeRanges, k: bv8): bv32
    requires k < 4
  {
    if k == 0 then u.r1 else if k == 1 then u.r2 else if k == 2 then u.r3 else u.r4
  }

  /** Bit j (0 the least significant) of a word. */
  predicate HasBit(w: bv32, j: bv8)
    requires j < 32
  {
    w & (1 << j) != 0
  }

  /**
   * Setting the Unicode-range bit b: bit 31 − (b mod 32) of word b / 32,
   * and IndexOutOfRangeException from bit 128 on.
   */
  function PlaceRangeBit(u: UnicodeRanges, b: bv8): Result<UnicodeRanges>
  {
    if b >= 128 then Err(IndexOutOfRange)
    else
      var mask: bv32 := 1 << (31 - b % 32);
      if b < 32 then Ok(u.(r1 := u.r1 | mask))
      else if b < 64 then Ok(u.(r2 := u.r2 | mask))
      else if b < 96 then Ok(u.(r3 := u.r3 | mask))
      else Ok(u.(r4 := u.r4 | mask))
  }

  /** The bit PlaceRangeBit targets: word b / 32, position 31 − b mod 32. */
  predicate Targets(b: bv8, k: bv8, j: bv8)
  {
    k == b / 32 && j == 31 - b % 32
  }

  /** ORing in bit i sets bit i and leaves every other bit as it was. */
  lemma {:induction false} OrBit(w: bv32, i: bv8, j: bv8)
    requires i < 32 && j < 32
    ensures HasBit(w | (1 << i), j) == (HasBit(w, j) || i == j)
  {
  }

  /** Bit b < 128 lands on exactly one bit of one word, and every other bit is unchanged. */
  lemma {:induction false} RangeBitPlacement(u: UnicodeRanges, b: bv8)
    ensures PlaceRangeBit(u, b).Ok? <==> b < 128
    ensures PlaceRangeBit(u, b).Ok? ==> forall k: bv8, j: bv8 :: k < 4 && j < 32 ==>
      HasBit(Word(PlaceRangeBit(u, b).value, k), j) == (HasBit(Word(u, k), j) || Targets(b, k, j))
  {
    if b < 128 {
      forall k: bv8, j: bv8 | k < 4 && j < 32
        ensures HasBit(Word(PlaceRangeBit(u, b).value, k), j) == (HasBit(Word(u, k), j) || Targets(b, k, j))
      {
        WordPlacement(u, b, k, j);
      }
    }
  }

  /** One bit of one word after placing bit b. */
  lemma {:induction false} WordPlacement(u: UnicodeRanges, b: bv8, k: bv8, j: bv8)
    requires b < 128 && k < 4 && j < 32
    ensures HasBit(Word(PlaceRangeBit(u, b).value, k), j) == (HasBit(Word(u, k), j) || Targets(b, k, j))
  {
    WordAfter(u, b, k);
    BitAfter(Word(u, k), Word(PlaceRangeBit(u, b).value, k), 31 - b % 32, j, k == b / 32);
  }

  /** Word k after placing bit b: its mask ORed in when k is b / 32, unchanged otherwise. */
  lemma {:induction false} WordAfter(u: UnicodeRanges, b: bv8, k: bv8)
    requires b < 128 && k < 4
    ensures Word(PlaceRangeBit(u, b).value, k) ==
      if k == b / 32 then Word(u, k) | (1 << (31 - b % 32)) else Word(u, k)
  {
    PlacedWord(u, b);
    WordOfSet(u, b / 32, Word(u, b / 32) | (1 << (31 - b % 32)), k);
  }

  /** A word that has had bit r ORed in, or not. */
  lemma {:induction false} BitAfter(before: bv32, after: bv32, r: bv8, j: bv8, hit: bool)
    requires r < 32 && j < 32
    requires after == if hit then before | (1 << r) else before
    ensures HasBit(after, j) == (HasBit(before, j) || (hit && r == j))
  {
    if hit {
      OrBit(before, r, j);
    }
  }

  /** Word k replaced by w. */
  function SetWord(u: UnicodeRanges, k: bv8, w: bv32): UnicodeRanges
    requires k < 4
  {
    if k == 0 then u.(r1 := w) else if k == 1 then u.(r2 := w) else if k == 2 then u.(r3 := w) else u.(r4 := w)
  }

  lemma {:induction false} WordOfSet(u: UnicodeRanges, q: bv8, w: bv32, k: bv8)
    requires q < 4 && k < 4
    ensures Word(SetWord(u, q, w), k) == if k == q then w else Word(u, k)
  {
  }

  /** Placing bit b < 128 ORs its mask into word b / 32. */
  lemma {:induction false} PlacedWord(u: UnicodeRanges, b: bv8)
    requires b < 128
    ensures b / 32 < 4 && 31 - b % 32 < 32
    ensures PlaceRangeBit(u, b) == Ok(SetWord(u, b / 32, Word(u, b / 32) | (1 << (31 - b % 32))))
  {
  }

  /** The range-bit loop: each selected bit in turn, stopping at the first error. */
  function PlaceRangeBits(u: UnicodeRanges, bits: seq<bv8>): Result<UnicodeRanges>
  {
    if |bits| == 0 then Ok(u)
    else
      var v :- PlaceRangeBits(u, bits[..|bits| - 1]);
      PlaceRangeBit(v, bits[|bits| - 1])
  }

  /**
   * Placing a list of bits succeeds iff every bit is below 128, and then a
   * bit of the result is set iff it was set before or some listed bit
   * targets it.
   */
  lemma {:induction false} RangeBitsPlacement(u: UnicodeRanges, bits: seq<bv8>)
    ensures PlaceRangeBits(u, bits).Ok? <==> forall i :: 0 <= i < |bits| ==> bits[i] < 128
    ensures PlaceRangeBits(u, bits).Ok? ==> forall k: bv8, j: bv8 :: k < 4 && j < 32 ==>
      HasBit(Word(PlaceRangeBits(u, bits).value, k), j) ==
        (HasBit(Word(u, k), j) || exists i :: 0 <= i < |bits| && Targets(bits[i], k, j))
  {
    if |bits| > 0 {
      var init := bits[..|bits| - 1];
      var b := bits[|bits| - 1];
      RangeBitsPlacement(u, init);
      assert forall i :: 0 <= i < |init| ==> init[i] == bits[i];
      if PlaceRangeBits(u, init).Ok? {
        var v := PlaceRangeBits(u, init).value;
        RangeBitPlacement(v, b);
        if b < 128 {
          var w := PlaceRangeBits(u, bits).value;
          forall k: bv8, j: bv8 | k < 4 && j < 32
            ensures HasBit(Word(w, k), j) ==
              (HasBit(Word(u, k), j) || exists i :: 0 <= i < |bits| && Targets(bits[i], k, j))
          {
            if Targets(b, k, j) {
              assert Targets(bits[|bits| - 1], k, j);
            }
            if exists i :: 0 <= i < |bits| && Targets(bits[i], k, j) {
              var i :| 0 <= i < |bits| && Targets(bits[i], k, j);
              if i < |init| {
                assert Targets(init[i], k, j);
              }
            }
          }
        }
      }
    }
  }

  /** The loop that ORs the selected range bits into the cleared words. */
  method RangeBits(bits: seq<bv8>) returns (res: Result<UnicodeRanges>)
    ensures res == PlaceRangeBits(UnicodeRanges(0, 0, 0, 0), bits)
  {
    var u := UnicodeRanges(0, 0, 0, 0);
    var i := 0;
    while i < |bits|
      invariant 0 <= i <= |bits|
      invariant PlaceRangeBits(UnicodeRanges(0, 0, 0, 0), bits[..i]) == Ok(u)
    {
      assert bits[..i + 1][..i] == bits[..i];
      var next := PlaceRangeBit(u, bits[i]);
      if next.Err? {
        EarlyError(UnicodeRanges(0, 0, 0, 0), bits, i);
        return next.PropagateFailure();
      }
      u := next.value;
      i := i + 1;
    }
    assert bits[..|bits|] == bits;
    return Ok(u);
  }

  /** An error at a turn of the loop is the error of the whole fold. */
  lemma {:induction false} EarlyError(u: UnicodeRanges, bits: seq<bv8>, i: nat)
    requires i < |bits| && PlaceRangeBits(u, bits[..i]).Ok?
    requires PlaceRangeBit(PlaceRangeBits(u, bits[..i]).value, bits[i]).Err?
    ensures PlaceRangeBits(u, bits) == Err(IndexOutOfRange)
    decreases |bits|
  {
    var init := bits[..|bits| - 1];
    if i + 1 < |bits| {
      assert init[..i] == bits[..i] && init[i] == bits[i];
      EarlyError(u, init, i);
    } else {
      assert init == bits[..i];
    }
  }

  /** ulCodePageRange1 and ulCodePageRange2 as bit vectors. */
  datatype CodePages = CodePages(w1: bv32, w2: bv32)

  /** The code-page bit of position i: bit i of ulCodePageRange1, or bit i − 32 of ulCodePageRange2. */
  function PlaceCodePage(d: CodePages, i: bv8): CodePages
  {
    if i < 32 then d.(w1 := d.w1 | (1 << i))
    else if i < 64 then d.(w2 := d.w2 | (1 << (i - 32)))
    else d
  }

  function PlaceCodePages(d: CodePages, pages: seq<bv8>): CodePages
  {
    if |pages| == 0 then d else PlaceCodePage(PlaceCodePages(d, pages[..|pages| - 1]), pages[|pages| - 1])
  }

  /** Marking position p sets bit p of word 1 (p < 32) or bit p − 32 of word 2 (p < 64), and nothing else. */
  lemma {:induction false} PagePlacement(d: CodePages, p: bv8, j: bv8)
    requires j < 32
    ensures HasBit(PlaceCodePage(d, p).w1, j) == (HasBit(d.w1, j) || p == j)
    ensures HasBit(PlaceCodePage(d, p).w2, j) == (HasBit(d.w2, j) || p == 32 + j)
  {
    if p < 32 {
      OrBit(d.w1, p, j);
    } else if p < 64 {
      OrBit(d.w2, p - 32, j);
    }
  }

  /**
   * Marking matched code pages ORs into the words already there: bit j of
   * word 1 is set iff it was or position j matched, and bit j of word 2
   * iff it was or position 32 + j matched.
   */
  lemma {:induction false} CodePagesPlacement(d: CodePages, pages: seq<bv8>)
    ensures forall j: bv8 :: j < 32 ==> HasBit(PlaceCodePages(d, pages).w1, j) == (HasBit(d.w1, j) || j in pages)
    ensures forall j: bv8 :: j < 32 ==> HasBit(PlaceCodePages(d, pages).w2, j) == (HasBit(d.w2, j) || 32 + j in pages)
  {
    if |pages| > 0 {
      var init := pages[..|pages| - 1];
      var p := pages[|pages| - 1];
      CodePagesPlacement(d, init);
      assert pages == init + [p];
      forall j: bv8 | j < 32
        ensures HasBit(PlaceCodePages(d, pages).w1, j) == (HasBit(d.w1, j) || j in pages)
        ensures HasBit(PlaceCodePages(d, pages).w2, j) == (HasBit(d.w2, j) || 32 + j in pages)
      {
        PagePlacement(PlaceCodePages(d, init), p, j);
      }
    }
  }

  /** A stored 32-bit word as a bit vector, and back. */
  function Bits(w: u32): bv32
  {
    w as bv32
  }

  function Word32(b: bv32): u32
  {
    b as int
  }

  // ------------------------------------------------------------ finding the cmap subtables

  /** Record i is a platform-0 encoding whose subtable is format 4. */
  predicate UnicodeFormat4(c: Cmap.CmapTable, i: nat)
    requires Cmap.Valid(c) && i < |c.records|
  {
    c.records[i].platformId == 0 && c.pool[c.records[i].subtable].Format4?
  }

  /** `FirstOrDefault(PlatformId == 0 && Subtable is format 4)`, looking from record k on. */
  function FindUnicode4(c: Cmap.CmapTable, k: nat): (r: Option<nat>)
    requires Cmap.Valid(c)
    ensures r.None? <==> forall i :: k <= i < |c.records| ==> !UnicodeFormat4(c, i)
    ensures r.Some? ==> (k <= r.value < |c.records| && UnicodeFormat4(c, r.value) &&
      forall i :: k <= i < r.value ==> !UnicodeFormat4(c, i))
    decreases |c.records| - k
  {
    if k >= |c.records| then None
    else if UnicodeFormat4(c, k) then Some(k)
    else FindUnicode4(c, k + 1)
  }

  /** `FirstOrDefault(PlatformId == 3 && PlatformSpecificId == 1)`, looking from record k on. */
  function FindWindowsBmp(c: Cmap.CmapTable, k: nat): (r: Option<nat>)
    ensures r.None? <==> forall i :: k <= i < |c.records| ==>
      !(c.records[i].platformId == 3 && c.records[i].platformSpecificId == 1)
    ensures r.Some? ==> (k <= r.value < |c.records| &&
      c.records[r.value].platformId == 3 && c.records[r.value].platformSpecificId == 1 &&
      forall i :: k <= i < r.value ==> !(c.records[i].platformId == 3 && c.records[i].platformSpecificId == 1))
    decreases |c.records| - k
  {
    if k >= |c.records| then None
    else if c.records[k].platformId == 3 && c.records[k].platformSpecificId == 1 then Some(k)
    else FindWindowsBmp(c, k + 1)
  }

  const Windows4Required := "Windows Unicode BMP mapping subtable must be format 4."

  // ------------------------------------------------------------ validation

  /** C#'s integer division by 2, which truncates toward zero. */
  function Half(v: int): int
  {
    if v >= 0 then v / 2 else -((-v) / 2)
  }

  /** The values `Validate` reads from the other tables. */
  datatype Inputs = Inputs(hhea: Hhea.HheaData, head: Head.HeadData, post: Post.PostHeader, cmap: Cmap.CmapTable)

  /**
   * The inputs the model takes as given: the average advance (a floating
   * mean), the Unicode-range bits the range scan selects, in order, and
   * the code-page positions whose encoding round-trips a BMP character.
   */
  datatype Outside = Outside(avgCharWidth: i16, rangeBits: seq<bv8>, codePages: seq<bv8>)

  /**
   * The metric fields `Validate` copies or derives, before the cmap is
   * consulted: sub- and superscript sizes and offsets, strikeout, the
   * typographic and the Windows ascent and descent.
   */
  function Metrics(d: Os2V0, x: Inputs, avg: i16): (r: Os2V0)
    ensures r.xAvgCharWidth == avg
    ensures r.ySubscriptXSize == r.ySuperscriptXSize == x.hhea.advanceWidthMax / 2
    ensures r.ySubscriptYSize == r.ySuperscriptYSize == r.ySubscriptYOffset == r.ySuperscriptYOffset ==
      Half(x.head.yMax - x.head.yMin)
    ensures r.ySubscriptXOffset == 0 && r.ySuperscriptXOffset == 0
    ensures r.yStrikeoutSize == x.post.underlineThickness && r.yStrikeoutPosition == Half(x.head.yMax)
    ensures r.sTypoAscender == x.hhea.ascent && r.sTypoDescender == x.hhea.descent && r.sTypoLineGap == x.hhea.lineGap
    ensures r.usWinAscent == x.hhea.ascent % 0x1_0000 && r.usWinDescent == (0 - x.hhea.descent as int) % 0x1_0000
    ensures x.hhea.ascent >= 0 ==> r.usWinAscent == x.hhea.ascent
    ensures x.hhea.descent <= 0 ==> r.usWinDescent == 0 - x.hhea.descent as int
  {
    var miniX := x.hhea.advanceWidthMax / 2;
    var miniY := Half(x.head.yMax - x.head.yMin);
    d.(xAvgCharWidth := avg,
       ySubscriptXSize := miniX, ySubscriptYSize := miniY, ySubscriptXOffset := 0, ySubscriptYOffset := miniY,
       ySuperscriptXSize := miniX, ySuperscriptYSize := miniY, ySuperscriptXOffset := 0, ySuperscriptYOffset := miniY,
       yStrikeoutSize := x.post.underlineThickness, yStrikeoutPosition := Half(x.head.yMax),
       sTypoAscender := x.hhea.ascent, sTypoDescender := x.hhea.descent, sTypoLineGap := x.hhea.lineGap,
       usWinAscent := x.hhea.ascent % 0x1_0000, usWinDescent := (0 - x.hhea.descent as int) % 0x1_0000)
  }

  /** The version-1 words with the matched code pages ORed in. */
  function MarkedPages(d: Os2V1, pages: seq<bv8>): Os2V1
  {
    var c := PlaceCodePages(CodePages(Bits(d.ulCodePageRange1), Bits(d.ulCodePageRange2)), pages);
    Os2V1(Word32(c.w1), Word32(c.w2))
  }

  /** The segments of the first platform-0 format-4 subtable. */
  function UnicodeSegments(c: Cmap.CmapTable, k: nat): seq<CmapSubtables.Segment>
    requires Cmap.Valid(c) && k < |c.records| && UnicodeFormat4(c, k)
  {
    c.pool[c.records[k].subtable].segments
  }

  /**
   * `Validate`: NotSupportedException when no platform-0 encoding uses a
   * format-4 subtable; IndexOutOfRangeException when a selected range bit
   * is 128 or more; InvalidOperationException when a (3, 1) encoding
   * exists and does not use format 4.  Otherwise the metrics are derived,
   * the first and last character come from the Unicode subtable's
   * segments, the range words are rebuilt from the selected bits, the
   * matched code pages are ORed into the version-1 words (only when a
   * (3, 1) encoding exists), and nothing else changes.
   */
  method Validate(t: Os2Table, x: Inputs, o: Outside) returns (res: Result<Os2Table>)
    requires Cmap.Valid(x.cmap)
    ensures FindUnicode4(x.cmap, 0).None? ==> res == Err(NotSupported)
    ensures FindUnicode4(x.cmap, 0).Some? && PlaceRangeBits(UnicodeRanges(0, 0, 0, 0), o.rangeBits).Err? ==>
      res == Err(IndexOutOfRange)
    ensures FindUnicode4(x.cmap, 0).Some? && PlaceRangeBits(UnicodeRanges(0, 0, 0, 0), o.rangeBits).Ok? ==>
      var w := FindWindowsBmp(x.cmap, 0);
      res.Err? <==> w.Some? && !x.cmap.pool[x.cmap.records[w.value].subtable].Format4?
    ensures res.Err? ==> res.error in {NotSupported, IndexOutOfRange, InvalidOperation(Windows4Required)}
    ensures res.Ok? ==>
      var k := FindUnicode4(x.cmap, 0).value;
      var u := PlaceRangeBits(UnicodeRanges(0, 0, 0, 0), o.rangeBits).value;
      var segs := UnicodeSegments(x.cmap, k);
      var v0 := res.value.v0;
      && v0 == Metrics(t.v0, x, o.avgCharWidth).(
           usFirstCharIndex := FirstChar(segs), usLastCharIndex := LastChar(segs),
           ulUnicodeRange1 := Word32(u.r1), ulUnicodeRange2 := Word32(u.r2),
           ulUnicodeRange3 := Word32(u.r3), ulUnicodeRange4 := Word32(u.r4))
      && res.value.v1 == (if FindWindowsBmp(x.cmap, 0).Some? then MarkedPages(t.v1, o.codePages) else t.v1)
      && res.value.v2 == t.v2 && res.value.v5 == t.v5
  {
    var v0 := Metrics(t.v0, x, o.avgCharWidth);
    var found := FindUnicode4(x.cmap, 0);
    if found.None? {
      return Err(NotSupported);
    }
    var segs := UnicodeSegments(x.cmap, found.value);
    var ranges := RangeBits(o.rangeBits);
    if ranges.Err? {
      return Err(IndexOutOfRange);
    }
    var firstChar, lastChar := CharRange(segs);
    v0 := v0.(usFirstCharIndex := firstChar, usLastCharIndex := lastChar,
              ulUnicodeRange1 := Word32(ranges.value.r1), ulUnicodeRange2 := Word32(ranges.value.r2),
              ulUnicodeRange3 := Word32(ranges.value.r3), ulUnicodeRange4 := Word32(ranges.value.r4));
    var v1 := t.v1;
    var windows := FindWindowsBmp(x.cmap, 0);
    if windows.Some? {
      if !x.cmap.pool[x.cmap.records[windows.value].subtable].Format4? {
        return Err(InvalidOperation(Windows4Required));
      }
      v1 := MarkedPages(v1, o.codePages);
    }
    return Ok(Os2Table(v0, v1, t.v2, t.v5));
  }
}
