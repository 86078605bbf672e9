/**
 * The `maxp` table: a 32-byte fixed record of the font's maxima.
 * Validation takes the glyph count and the largest point and contour counts
 * from the glyf table; serialisation forces version 1.0.
 */
module Maxp {
  import opened Wrappers
  import opened Bytes
  import opened Records
  import BufferReaders
  import FixedTable
  import GlyfTable
  import Slots

  datatype MaxpData = MaxpData(
    version: i32, numGlyphs: u16, maxPoints: u16, maxContours: u16,
    maxComponentPoints: u16, maxComponentContours: u16, maxZones: u16,
    maxTwilightPoints: u16, maxStorage: u16, maxFunctionDefs: u16,
    maxInstructionDefs: u16, maxStackElements: u16, maxSizeOfInstructions: u16,
    maxComponentElements: u16, maxComponentDepth: u16)

  /** Version 1.0 as a 16.16 fixed-point number. */
  const Version: i32 := 0x0001_0000

  /** Field declaration order of TtfTableMaxpData, in three groups. */
  const Group1: Records.Layout := [I32, U16, U16, U16, U16]
  const Group2: Records.Layout := [U16, U16, U16, U16, U16]
  const Layout: Records.Layout := Group1 + Group2 + Group2

  function Fields(d: MaxpData): seq<int>
  {
    [d.version, d.numGlyphs, d.maxPoints, d.maxContours, d.maxComponentPoints, d.maxComponentContours,
     d.maxZones, d.maxTwilightPoints, d.maxStorage, d.maxFunctionDefs, d.maxInstructionDefs,
     d.maxStackElements, d.maxSizeOfInstructions, d.maxComponentElements, d.maxComponentDepth]
  }

  function FromFields(v: seq<int>): MaxpData
    requires Conforms(Layout, v)
  {
    MaxpData(v[0], v[1], v[2], v[3], v[4], v[5], v[6], v[7], v[8], v[9], v[10], v[11], v[12], v[13], v[14])
  }

  lemma {:induction false} FieldsConform(d: MaxpData)
    ensures Conforms(Layout, Fields(d)) && FromFields(Fields(d)) == d
  {
  }

  /** `Marshal.SizeOf<TtfTableMaxpData>()` is 32. */
  lemma {:induction false} SizeIs32()
    ensures Size(Layout) == 32
  {
    assert Size(Group1) == 12 && Size(Group2) == 10;
    SizeConcat(Group1, Group2);
    SizeConcat(Group1 + Group2, Group2);
  }

  // ------------------------------------------------------------ validation

  /** A glyf entry's point count as the `(ushort)` cast keeps it: none for a null entry. */
  function PointCount(e: GlyfTable.Entry): u16
  {
    if e.None? then 0 else |e.value.points| % 0x1_0000
  }

  function ContourCount(e: GlyfTable.Entry): u16
  {
    if e.None? then 0 else |e.value.endPtsOfContours| % 0x1_0000
  }

  function PointCounts(entries: seq<GlyfTable.Entry>): (s: seq<nat>)
    ensures |s| == |entries| && forall i :: 0 <= i < |entries| ==> s[i] == PointCount(entries[i])
  {
    seq(|entries|, i requires 0 <= i < |entries| => PointCount(entries[i]) as nat)
  }

  function ContourCounts(entries: seq<GlyfTable.Entry>): (s: seq<nat>)
    ensures |s| == |entries| && forall i :: 0 <= i < |entries| ==> s[i] == ContourCount(entries[i])
  {
    seq(|entries|, i requires 0 <= i < |entries| => ContourCount(entries[i]) as nat)
  }

  /** The largest of the counts, 0 for none: no count exceeds it, and a non-empty sequence holds it. */
  function Max(s: seq<nat>): (m: nat)
    ensures forall i :: 0 <= i < |s| ==> s[i] <= m
    ensures |s| == 0 ==> m == 0
    ensures |s| > 0 ==> exists i :: 0 <= i < |s| && s[i] == m
  {
    if s == [] then 0
    else
      var m := Max(s[..|s| - 1]);
      assert forall i :: 0 <= i < |s| - 1 ==> s[..|s| - 1][i] == s[i];
      if m < s[|s| - 1] then s[|s| - 1] else m
  }

  /** The record `Validate` leaves: the counts and maxima from glyf, the component maxima 0, every other field kept. */
  function Validated(d: MaxpData, glyf: GlyfTable.GlyfTable): MaxpData
  {
    MaxFits(PointCounts(glyf.entries));
    MaxFits(ContourCounts(glyf.entries));
    d.(numGlyphs := |glyf.entries| % 0x1_0000,
       maxPoints := Max(PointCounts(glyf.entries)), maxContours := Max(ContourCounts(glyf.entries)),
       maxComponentPoints := 0, maxComponentContours := 0)
  }

  /** Counts that fit in 16 bits have a maximum that does too. */
  lemma {:induction false} MaxFits(s: seq<nat>)
    requires forall i :: 0 <= i < |s| ==> s[i] < 0x1_0000
    ensures Max(s) < 0x1_0000
  {
  }

  /**
   * `Validate`: the glyph count cut to 16 bits, then the loop over the
   * simple glyphs keeping the largest point and contour counts.
   */
  method Validate(d: MaxpData, glyf: GlyfTable.GlyfTable) returns (r: MaxpData)
    ensures r == Validated(d, glyf)
  {
    var numGlyphs := |glyf.entries| % 0x1_0000;
    var maxPoints: u16 := 0;
    var maxContours: u16 := 0;
    ghost var points, contours := PointCounts(glyf.entries), ContourCounts(glyf.entries);
    assert points[..0] == [] && contours[..0] == [];
    for i := 0 to |glyf.entries|
      invariant maxPoints == Max(points[..i]) && maxContours == Max(contours[..i])
    {
      Slots.TakeStep(points, i);
      Slots.TakeStep(contours, i);
      var e := glyf.entries[i];
      if e.Some? {
        var numPoints := |e.value.points| % 0x1_0000;
        var numContours := |e.value.endPtsOfContours| % 0x1_0000;
        if maxPoints < numPoints {
          maxPoints := numPoints;
        }
        if maxContours < numContours {
          maxContours := numContours;
        }
      }
    }
    assert points[..|glyf.entries|] == points && contours[..|glyf.entries|] == contours;
    r := d.(numGlyphs := numGlyphs, maxPoints := maxPoints, maxContours := maxContours,
            maxComponentPoints := 0, maxComponentContours := 0);
  }

  /**
   * For glyphs whose point counts fit in 16 bits, maxPoints is the largest
   * point count of any simple glyph, and 0 when there is none.
   */
  lemma {:induction false} ValidatedMaxPoints(d: MaxpData, glyf: GlyfTable.GlyfTable)
    requires forall i :: 0 <= i < |glyf.entries| && glyf.entries[i].Some? ==> |glyf.entries[i].value.points| < 0x1_0000
    ensures forall i :: 0 <= i < |glyf.entries| && glyf.entries[i].Some? ==>
      |glyf.entries[i].value.points| <= Validated(d, glyf).maxPoints
    ensures Validated(d, glyf).maxPoints == 0 ||
      (exists i :: 0 <= i < |glyf.entries| && glyf.entries[i].Some? && |glyf.entries[i].value.points| == Validated(d, glyf).maxPoints)
  {
    var points := PointCounts(glyf.entries);
    var m := Max(points);
    forall i | 0 <= i < |glyf.entries| && glyf.entries[i].Some?
      ensures |glyf.entries[i].value.points| <= m
    {
      assert points[i] == |glyf.entries[i].value.points|;
    }
    if m != 0 {
      var i :| 0 <= i < |points| && points[i] == m;
      assert glyf.entries[i].Some? && |glyf.entries[i].value.points| == m;
    }
  }

  /**
   * For glyphs whose contour counts fit in 16 bits, maxContours is the
   * largest contour count of any simple glyph, and 0 when there is none.
   */
  lemma {:induction false} ValidatedMaxContours(d: MaxpData, glyf: GlyfTable.GlyfTable)
    requires forall i :: 0 <= i < |glyf.entries| && glyf.entries[i].Some? ==> |glyf.entries[i].value.endPtsOfContours| < 0x1_0000
    ensures forall i :: 0 <= i < |glyf.entries| && glyf.entries[i].Some? ==>
      |glyf.entries[i].value.endPtsOfContours| <= Validated(d, glyf).maxContours
    ensures Validated(d, glyf).maxContours == 0 ||
      (exists i :: 0 <= i < |glyf.entries| && glyf.entries[i].Some? && |glyf.entries[i].value.endPtsOfContours| == Validated(d, glyf).maxContours)
  {
    var contours := ContourCounts(glyf.entries);
    var m := Max(contours);
    forall i | 0 <= i < |glyf.entries| && glyf.entries[i].Some?
      ensures |glyf.entries[i].value.endPtsOfContours| <= m
    {
      assert contours[i] == |glyf.entries[i].value.endPtsOfContours|;
    }
    if m != 0 {
      var i :| 0 <= i < |contours| && contours[i] == m;
      assert glyf.entries[i].Some? && |glyf.entries[i].value.endPtsOfContours| == m;
    }
  }

  /** numGlyphs counts every entry, null ones too, as long as there are fewer than 2^16. */
  lemma {:induction false} ValidatedCount(d: MaxpData, glyf: GlyfTable.GlyfTable)
    requires |glyf.entries| < 0x1_0000
    ensures Validated(d, glyf).numGlyphs == |glyf.entries|
    ensures Validated(d, glyf).(numGlyphs := d.numGlyphs, maxPoints := d.maxPoints, maxContours := d.maxContours,
      maxComponentPoints := d.maxComponentPoints, maxComponentContours := d.maxComponentContours) == d
  {
  }

  // ------------------------------------------------------------ serializing

  /** The record `Serialize` writes: version forced to 1.0. */
  function Forced(d: MaxpData): (r: MaxpData)
    ensures r.version == Version && r.(version := d.version) == d
  {
    d.(version := Version)
  }

  /** The bytes `Serialize` writes: the forced record's image. */
  function Serialize(d: MaxpData): (image: seq<byte>)
    ensures |image| == 32
  {
    FieldsConform(Forced(d));
    SizeIs32();
    FixedTable.Serialize(Layout, Fields(Forced(d)))
  }

  /** `Deserialize`: one record read at the cursor. */
  function Deserialize(r: BufferReaders.Reader): Result<(MaxpData, BufferReaders.Reader)>
  {
    var x :- FixedTable.Deserialize(r, Layout);
    Ok((FromFields(x.0), x.1))
  }

  /** Parsing the serialized bytes gives back the forced record and consumes all 32 bytes. */
  lemma {:induction false} RoundTrip(d: MaxpData, rest: seq<byte>)
    ensures Deserialize(BufferReaders.Fresh(Serialize(d) + rest)) ==
      Ok((Forced(d), BufferReaders.Reader(Serialize(d) + rest, 32)))
  {
    FieldsConform(Forced(d));
    SizeIs32();
    FixedTable.RoundTripFresh(Layout, Fields(Forced(d)), rest);
  }
}
