/**
 * The `hhea` table: a 36-byte fixed record.  Validation copies the number
 * of long metrics from hmtx and recomputes advanceWidthMax; serialisation
 * forces the version and clears the reserved words and metricDataFormat.
 */
module Hhea {
  import opened Wrappers
  import opened Bytes
  import opened Records
  import BufferReaders
  import FixedTable
  import Hmtx

  datatype HheaData = HheaData(
    version: i32, ascent: i16, descent: i16, lineGap: i16, advanceWidthMax: u16,
    minLeftSideBearing: i16, minRightSideBearing: i16, xMaxExtent: i16,
    caretSlopeRise: i16, caretSlopeRun: i16, caretOffset: i16,
    reserved0: i16, reserved1: i16, reserved2: i16, reserved3: i16,
    metricDataFormat: i16, numOfLongHorMetrics: u16)

  const Version: i32 := 0x0001_0000

  const Group1: Records.Layout := [I32, I16, I16, I16, U16, I16]
  const Group2: Records.Layout := [I16, I16, I16, I16, I16, I16]
  const Group3: Records.Layout := [I16, I16, I16, I16, U16]

  function Layout(): Records.Layout
  {
    Group1 + Group2 + Group3
  }

  function Fields(d: HheaData): seq<int>
  {
    [d.version, d.ascent, d.descent, d.lineGap, d.advanceWidthMax, d.minLeftSideBearing] +
    [d.minRightSideBearing, d.xMaxExtent, d.caretSlopeRise, d.caretSlopeRun, d.caretOffset, d.reserved0] +
    [d.reserved1, d.reserved2, d.reserved3, d.metricDataFormat, d.numOfLongHorMetrics]
  }

  function FromFields(v: seq<int>): HheaData
    requires Conforms(Layout(), v)
  {
    HheaData(v[0], v[1], v[2], v[3], v[4], v[5], v[6], v[7], v[8], v[9], v[10], v[11],
             v[12], v[13], v[14], v[15], v[16])
  }

  lemma {:induction false} FieldsConform(d: HheaData)
    ensures Conforms(Layout(), Fields(d)) && FromFields(Fields(d)) == d
  {
    var v1 := [d.version, d.ascent, d.descent, d.lineGap, d.advanceWidthMax, d.minLeftSideBearing];
    var v2 := [d.minRightSideBearing, d.xMaxExtent, d.caretSlopeRise, d.caretSlopeRun, d.caretOffset, d.reserved0];
    var v3 := [d.reserved1, d.reserved2, d.reserved3, d.metricDataFormat, d.numOfLongHorMetrics];
    assert Conforms(Group1, v1) && Conforms(Group2, v2) && Conforms(Group3, v3);
    ConformsConcat(Group1, Group2, v1, v2);
    ConformsConcat(Group1 + Group2, Group3, v1 + v2, v3);
  }

  lemma {:induction false} Group1Size() ensures Size(Group1) == 14 {}
  lemma {:induction false} Group2Size() ensures Size(Group2) == 12 {}
  lemma {:induction false} Group3Size() ensures Size(Group3) == 10 {}

  /** `Marshal.SizeOf<TtfTableHheaData>()` is 36. */
  lemma {:induction false} SizeIs36()
    ensures Size(Layout()) == 36
  {
    Group1Size();
    Group2Size();
    Group3Size();
    SizeConcat(Group1, Group2);
    SizeConcat(Group1 + Group2, Group3);
  }

  /** The largest advance width of the metrics, 0 for none. */
  function MaxAdvance(metrics: seq<Hmtx.LongHorMetric>): u16
  {
    if |metrics| == 0 then 0
    else
      var m := MaxAdvance(metrics[..|metrics| - 1]);
      var w := metrics[|metrics| - 1].advanceWidth;
      if m < w then w else m
  }

  /** MaxAdvance bounds every advance width and is one of them unless the list is empty. */
  lemma {:induction false} MaxAdvanceIsMaximum(metrics: seq<Hmtx.LongHorMetric>)
    ensures forall i :: 0 <= i < |metrics| ==> metrics[i].advanceWidth <= MaxAdvance(metrics)
    ensures |metrics| == 0 ==> MaxAdvance(metrics) == 0
    ensures |metrics| > 0 ==> exists i :: 0 <= i < |metrics| && metrics[i].advanceWidth == MaxAdvance(metrics)
  {
    if |metrics| > 0 {
      var init := metrics[..|metrics| - 1];
      MaxAdvanceIsMaximum(init);
      assert forall i :: 0 <= i < |init| ==> init[i] == metrics[i];
      if |init| > 0 {
        var j :| 0 <= j < |init| && init[j].advanceWidth == MaxAdvance(init);
        assert metrics[j].advanceWidth == MaxAdvance(init);
      }
    }
  }

  /**
   * `Validate`: numOfLongHorMetrics becomes the metric count (truncated to
   * 16 bits by the `(ushort)` cast) and advanceWidthMax the largest advance,
   * found by the running-maximum loop; nothing else changes.
   */
  method Validate(d: HheaData, metrics: seq<Hmtx.LongHorMetric>) returns (r: HheaData)
    ensures r.numOfLongHorMetrics == |metrics| % 0x1_0000
    ensures r.advanceWidthMax == MaxAdvance(metrics)
    ensures r.(numOfLongHorMetrics := d.numOfLongHorMetrics, advanceWidthMax := d.advanceWidthMax) == d
  {
    var advanceWidthMax: u16 := 0;
    var i := 0;
    while i < |metrics|
      invariant 0 <= i <= |metrics|
      invariant advanceWidthMax == MaxAdvance(metrics[..i])
    {
      assert metrics[..i + 1][..i] == metrics[..i];
      if advanceWidthMax < metrics[i].advanceWidth {
        advanceWidthMax := metrics[i].advanceWidth;
      }
      i := i + 1;
    }
    assert metrics[..|metrics|] == metrics;
    r := d.(numOfLongHorMetrics := |metrics| % 0x1_0000, advanceWidthMax := advanceWidthMax);
  }

  /** The record `Serialize` writes. */
  function Forced(d: HheaData): (r: HheaData)
    ensures r.version == Version && r.metricDataFormat == 0
    ensures r.reserved0 == 0 && r.reserved1 == 0 && r.reserved2 == 0 && r.reserved3 == 0
    ensures r.(version := d.version, reserved0 := d.reserved0, reserved1 := d.reserved1,
               reserved2 := d.reserved2, reserved3 := d.reserved3, metricDataFormat := d.metricDataFormat) == d
  {
    d.(version := Version, reserved0 := 0, reserved1 := 0, reserved2 := 0, reserved3 := 0, metricDataFormat := 0)
  }

  function Serialize(d: HheaData): (image: seq<byte>)
    ensures |image| == 36
  {
    FieldsConform(Forced(d));
    SizeIs36();
    FixedTable.Serialize(Layout(), Fields(Forced(d)))
  }

  function Deserialize(r: BufferReaders.Reader): Result<(HheaData, BufferReaders.Reader)>
  {
    var x :- FixedTable.Deserialize(r, Layout());
    Ok((FromFields(x.0), x.1))
  }

  /** Parsing the serialized bytes gives back the forced record and consumes all 36 bytes. */
  lemma {:induction false} RoundTrip(d: HheaData, rest: seq<byte>)
    ensures Deserialize(BufferReaders.Fresh(Serialize(d) + rest)) ==
      Ok((Forced(d), BufferReaders.Reader(Serialize(d) + rest, 36)))
  {
    FieldsConform(Forced(d));
    SizeIs36();
    FixedTable.RoundTripFresh(Layout(), Fields(Forced(d)), rest);
  }
}
