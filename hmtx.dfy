/**
 * The `hmtx` table: the long horizontal metrics (advance width and left
 * side bearing, 4 bytes each) followed by the bare left side bearings
 * (2 bytes each) of the remaining glyphs.
 */
module Hmtx {
  import opened Wrappers
  import opened Bytes
  import opened Records
  import opened RecordArrays
  import BufferReaders

  datatype LongHorMetric = LongHorMetric(advanceWidth: u16, leftSideBearing: i16)

  datatype HmtxData = HmtxData(longHorMetric: seq<LongHorMetric>, leftSideBearing: seq<i16>)

  const MetricLayout: Records.Layout := [U16, I16]
  const BearingLayout: Records.Layout := [I16]

  lemma {:induction false} LayoutSizes()
    ensures Size(MetricLayout) == 4 && Size(BearingLayout) == 2
  {
  }

  function MetricRows(ms: seq<LongHorMetric>): (rows: seq<seq<int>>)
    ensures |rows| == |ms| && AllConform(MetricLayout, rows)
  {
    seq(|ms|, i requires 0 <= i < |ms| => [ms[i].advanceWidth as int, ms[i].leftSideBearing as int])
  }

  function BearingRows(bs: seq<i16>): (rows: seq<seq<int>>)
    ensures |rows| == |bs| && AllConform(BearingLayout, rows)
  {
    seq(|bs|, i requires 0 <= i < |bs| => [bs[i] as int])
  }

  function MetricsOf(rows: seq<seq<int>>): seq<LongHorMetric>
    requires AllConform(MetricLayout, rows)
  {
    seq(|rows|, i requires 0 <= i < |rows| => LongHorMetric(rows[i][0], rows[i][1]))
  }

  function BearingsOf(rows: seq<seq<int>>): seq<i16>
    requires AllConform(BearingLayout, rows)
  {
    seq(|rows|, i requires 0 <= i < |rows| => rows[i][0] as i16)
  }

  /** `Validate`: the two lists together must cover exactly the glyf entries. */
  function Validate(h: HmtxData, numGlyphs: nat): (res: Result<()>)
    ensures res.Ok? <==> |h.longHorMetric| + |h.leftSideBearing| == numGlyphs
    ensures res.Err? ==> res.error.InvalidOperation?
  {
    if |h.longHorMetric| + |h.leftSideBearing| != numGlyphs then Err(InvalidOperation("")) else Ok(())
  }

  function GetSize(h: HmtxData): nat
  {
    |h.longHorMetric| * 4 + |h.leftSideBearing| * 2
  }

  /** `Serialize`: the metrics, then the bearings, back to back. */
  function Serialize(h: HmtxData): (image: seq<byte>)
    ensures |image| == GetSize(h)
  {
    LayoutSizes();
    TimesIsProduct(|h.longHorMetric|, 4);
    TimesIsProduct(|h.leftSideBearing|, 2);
    EncodeArray(MetricLayout, MetricRows(h.longHorMetric)) + EncodeArray(BearingLayout, BearingRows(h.leftSideBearing))
  }

  /**
   * `Deserialize`: numOfLongHorMetrics metrics (from hhea), then every whole
   * 2-byte value that remains as a bearing.
   */
  function Deserialize(r: BufferReaders.Reader, numOfLongHorMetrics: u16): (res: Result<(HmtxData, BufferReaders.Reader)>)
    ensures res.Ok? ==> |res.value.0.longHorMetric| == numOfLongHorMetrics
  {
    LayoutSizes();
    var m :- BufferReaders.ReadUnalignedArray(r, 4, numOfLongHorMetrics);
    var b :- BufferReaders.ReadUnalignedAsPossible(m.1, 2);
    BufferReaders.ReadsConsume(r, 0, numOfLongHorMetrics * 4);
    BufferReaders.ReadAsPossibleWholeValues(m.1, 2);
    TimesIsProduct(numOfLongHorMetrics, 4);
    TimesIsProduct(|b.0| / 2, 2);
    var metrics := MetricsOf(DecodeArray(MetricLayout, m.0, numOfLongHorMetrics));
    var bearings := BearingsOf(DecodeArray(BearingLayout, b.0, |b.0| / 2));
    Ok((HmtxData(metrics, bearings), b.1))
  }

  lemma {:induction false} RowsRoundTrip(h: HmtxData)
    ensures MetricsOf(MetricRows(h.longHorMetric)) == h.longHorMetric
    ensures BearingsOf(BearingRows(h.leftSideBearing)) == h.leftSideBearing
  {
  }

  /**
   * Parsing the serialized table with hhea's count gives back both lists:
   * the bearings are exactly the whole values left after the metrics.
   */
  lemma {:induction false} RoundTrip(h: HmtxData)
    requires |h.longHorMetric| < 0x1_0000
    ensures var image := Serialize(h);
      Deserialize(BufferReaders.Fresh(image), |h.longHorMetric|) ==
        Ok((h, BufferReaders.Reader(image, |image|)))
  {
    LayoutSizes();
    var image := Serialize(h);
    var n := |h.longHorMetric|;
    TimesIsProduct(n, 4);
    TimesIsProduct(|h.leftSideBearing|, 2);
    var a := EncodeArray(MetricLayout, MetricRows(h.longHorMetric));
    var b := EncodeArray(BearingLayout, BearingRows(h.leftSideBearing));
    var r := BufferReaders.Fresh(image);
    assert image == a + b;
    assert image[0..n * 4] == a;
    var r1 := BufferReaders.Reader(image, n * 4);
    assert BufferReaders.ReadUnalignedArray(r, 4, n) == Ok((a, r1));
    assert image[n * 4..n * 4 + |b| / 2 * 2] == b;
    assert BufferReaders.ReadUnalignedAsPossible(r1, 2) == Ok((b, BufferReaders.Reader(image, |image|)));
    ArrayRoundTrip(MetricLayout, MetricRows(h.longHorMetric), []);
    ArrayRoundTrip(BearingLayout, BearingRows(h.leftSideBearing), []);
    assert a + [] == a && b + [] == b;
    RowsRoundTrip(h);
    assert MetricsOf(DecodeArray(MetricLayout, a, n)) == h.longHorMetric;
    assert |b| / 2 == |h.leftSideBearing|;
    assert BearingsOf(DecodeArray(BearingLayout, b, |b| / 2)) == h.leftSideBearing;
  }
}
