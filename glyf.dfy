/**
 * Simple glyph outlines of the `glyf` table.  An entry is a 10-byte header
 * followed by the contour end points, the instructions, one flag byte per
 * point and then the x and the y coordinates, each 0, 1 or 2 bytes as the
 * point's flags say.  This module is one entry; `GlyfTable` is the table.
 */
module Glyf {
  import opened Wrappers
  import opened Bytes
  import opened Records
  import opened RecordArrays
  import BufferReaders
  import FixedTable

  // ------------------------------------------------------------ coordinates

  /**
   * One coordinate of a point.  `shortVector` says the stored value is one
   * unsigned byte; `flag` is then its sign (set: positive), and for a long
   * value it means "same as the previous point" (nothing stored, delta 0).
   * `rawCoordValue` is what is stored, `coordValue` the delta it stands for.
   */
  datatype Element = Element(shortVector: bool, flag: bool, coordValue: i16, rawCoordValue: i16)

  /** Whether the coordinate takes bytes in the coordinate arrays. */
  predicate IsValueOnArray(e: Element)
  {
    e.shortVector || !e.flag
  }

  /** What both setters keep: the delta is the one the flags and the stored value stand for. */
  predicate Valid(e: Element)
  {
    if e.shortVector then
      0 <= e.rawCoordValue <= 255 && e.coordValue == (if e.flag then e.rawCoordValue else -e.rawCoordValue)
    else
      e.coordValue == (if e.flag then 0 else e.rawCoordValue)
  }

  /** The `RawCoordValue` setter: a short value must be a byte; the delta follows from the flags. */
  function SetRawCoord(e: Element, value: i16): (r: Result<Element>)
    ensures r.Err? <==> e.shortVector && !(0 <= value <= 255)
    ensures r.Err? ==> r.error == ArgumentOutOfRange
    ensures r.Ok? ==>
      && Valid(r.value) && r.value.rawCoordValue == value
      && r.value.shortVector == e.shortVector && r.value.flag == e.flag
  {
    if e.shortVector then
      if value < 0 || value > 255 then Err(ArgumentOutOfRange)
      else Ok(e.(coordValue := if e.flag then value else -value, rawCoordValue := value))
    else
      Ok(e.(coordValue := if e.flag then 0 else value, rawCoordValue := value))
  }

  /** The `CoordValue` setter: picks the cheapest encoding of the delta. */
  function SetCoord(e: Element, value: i16): (r: Element)
    ensures Valid(r) && r.coordValue == value
    ensures IsValueOnArray(r) <==> value != 0
    ensures r.shortVector <==> value != 0 && -255 <= value <= 255
    ensures !IsValueOnArray(r) ==> r.rawCoordValue == 0
  {
    if value == 0 then Element(false, true, 0, 0)
    else if -255 <= value <= 255 then
      var positive := value >= 0;
      Element(true, positive, value, if positive then value else -value)
    else Element(false, false, value, value)
  }

  /** `new Element(shortVector, flag)`: both values 0, through the raw setter. */
  function NewElement(shortVector: bool, flag: bool): (e: Element)
    ensures Valid(e) && e.shortVector == shortVector && e.flag == flag && e.coordValue == 0
  {
    SetRawCoord(Element(shortVector, flag, 0, 0), 0).value
  }

  /** Bytes the coordinate takes in its array. */
  function CoordBytes(e: Element): nat
  {
    if !IsValueOnArray(e) then 0 else if e.shortVector then 1 else 2
  }

  /**
   * Storing a delta through `CoordValue` and loading the stored value into a
   * fresh element with the same flags (what parsing does) gives the same
   * element back.
   */
  lemma {:induction false} SetCoordRoundTrip(e: Element, value: i16)
    ensures var s := SetCoord(e, value);
      SetRawCoord(NewElement(s.shortVector, s.flag), s.rawCoordValue) == Ok(s)
  {
  }

  // ------------------------------------------------------------ points and flags

  datatype Point = Point(onCurve: bool, x: Element, y: Element)

  /** Bit 3 of a flag byte: the next byte repeats the flag. */
  predicate Repeat(flag: byte)
  {
    (flag as bv8) & 8 != 0
  }

  /** The point constructor from a flag byte: bits 0, 1, 2, 4 and 5. */
  function PointOfFlag(flag: byte): (p: Point)
  {
    var f := flag as bv8;
    Point(f & 1 != 0, NewElement(f & 2 != 0, f & 0x10 != 0), NewElement(f & 4 != 0, f & 0x20 != 0))
  }

  /** `GetPreferredFlagValue`: the same bits, never a repeat. */
  function PreferredFlag(p: Point): byte
  {
    var b: bv8 :=
      (if p.onCurve then 1 else 0) | (if p.x.shortVector then 2 else 0) | (if p.y.shortVector then 4 else 0) |
      (if p.x.flag then 0x10 else 0) | (if p.y.flag then 0x20 else 0);
    b as int
  }

  /** A point with the flags of p and both values 0: what the flag pass of parsing makes of p's flag. */
  function Blank(p: Point): Point
  {
    Point(p.onCurve, NewElement(p.x.shortVector, p.x.flag), NewElement(p.y.shortVector, p.y.flag))
  }

  /** The five flag bits, or-ed together, are each found where they were put, and bit 3 stays clear. */
  lemma {:induction false} FlagBitsApart(a: bool, b: bool, c: bool, d: bool, e: bool)
    ensures var f: bv8 :=
      (if a then 1 else 0) | (if b then 2 else 0) | (if c then 4 else 0) | (if d then 0x10 else 0) | (if e then 0x20 else 0);
      && (f & 1 != 0 <==> a) && (f & 2 != 0 <==> b) && (f & 4 != 0 <==> c)
      && (f & 0x10 != 0 <==> d) && (f & 0x20 != 0 <==> e) && f & 8 == 0
  {
  }

  /** The flag written for a point gives its flags back and never asks for a repeat. */
  lemma {:induction false} FlagRoundTrip(p: Point)
    ensures PointOfFlag(PreferredFlag(p)) == Blank(p)
    ensures !Repeat(PreferredFlag(p))
  {
    FlagBitsApart(p.onCurve, p.x.shortVector, p.y.shortVector, p.x.flag, p.y.flag);
  }

  /** The flag written for a parsed point is the parsed flag's bits 0, 1, 2, 4 and 5. */
  lemma {:induction false} FlagBits(flag: byte)
    ensures PreferredFlag(PointOfFlag(flag)) == ((flag as bv8) & 0x37) as int
  {
  }

  function Xs(points: seq<Point>): (es: seq<Element>)
    ensures |es| == |points|
  {
    seq(|points|, i requires 0 <= i < |points| => points[i].x)
  }

  function Ys(points: seq<Point>): (es: seq<Element>)
    ensures |es| == |points|
  {
    seq(|points|, i requires 0 <= i < |points| => points[i].y)
  }

  /** The points with new x and y elements, in order. */
  function WithCoords(points: seq<Point>, xs: seq<Element>, ys: seq<Element>): (r: seq<Point>)
    requires |xs| == |points| && |ys| == |points|
    ensures |r| == |points|
  {
    seq(|points|, i requires 0 <= i < |points| => points[i].(x := xs[i], y := ys[i]))
  }

  // ------------------------------------------------------------ entries

  datatype GlyphHeader = GlyphHeader(numberOfContours: i16, xMin: i16, yMin: i16, xMax: i16, yMax: i16)

  /** A simple glyph entry (`TtfTableGlyfEntrySimple`). */
  datatype SimpleGlyph = SimpleGlyph(header: GlyphHeader, instructions: seq<byte>, points: seq<Point>, endPtsOfContours: seq<u16>)

  const HeaderLayout: Records.Layout := [I16, I16, I16, I16, I16]
  const EndLayout: Records.Layout := [U16]

  lemma {:induction false} LayoutSizes()
    ensures Size(HeaderLayout) == 10 && Size(EndLayout) == 2
  {
  }

  function HeaderRow(h: GlyphHeader): (v: seq<int>)
    ensures Conforms(HeaderLayout, v)
  {
    [h.numberOfContours, h.xMin, h.yMin, h.xMax, h.yMax]
  }

  function HeaderOf(v: seq<int>): GlyphHeader
    requires Conforms(HeaderLayout, v)
  {
    GlyphHeader(v[0], v[1], v[2], v[3], v[4])
  }

  function EndRows(ends: seq<u16>): (rows: seq<seq<int>>)
    ensures |rows| == |ends| && AllConform(EndLayout, rows)
  {
    seq(|ends|, i requires 0 <= i < |ends| => [ends[i] as int])
  }

  function EndsOf(rows: seq<seq<int>>): seq<u16>
    requires AllConform(EndLayout, rows)
  {
    seq(|rows|, i requires 0 <= i < |rows| => rows[i][0] as u16)
  }

  /** The point count the contour ends announce: one past the last end, or 0 without contours. */
  function NumPoints(ends: seq<u16>): nat
  {
    if |ends| == 0 then 0 else ends[|ends| - 1] as int + 1
  }

  /** Coordinate bytes of a list of elements. */
  function CoordsLength(es: seq<Element>): nat
  {
    if |es| == 0 then 0 else CoordBytes(es[0]) + CoordsLength(es[1..])
  }

  /** `GetGlyphDataSize`: end points, instruction length and instructions, one flag per point, the coordinates. */
  function DataSize(g: SimpleGlyph): nat
  {
    2 * |g.endPtsOfContours| + 2 + |g.instructions| + |g.points| +
    CoordsLength(Xs(g.points)) + CoordsLength(Ys(g.points))
  }

  /** `GetSize`: the header and the data. */
  function EntrySize(g: SimpleGlyph): nat
  {
    10 + DataSize(g)
  }

  /** The coordinate array entry of one element: none, the low byte of the stored value, or its 16-bit pattern. */
  function CoordImage(e: Element): (s: seq<byte>)
    ensures |s| == CoordBytes(e)
  {
    if !IsValueOnArray(e) then []
    else if e.shortVector then [e.rawCoordValue % 0x100]
    else BE16(Unsigned(16, e.rawCoordValue))
  }

  function CoordsImage(es: seq<Element>): (s: seq<byte>)
    ensures |s| == CoordsLength(es)
  {
    if |es| == 0 then [] else CoordImage(es[0]) + CoordsImage(es[1..])
  }

  lemma {:induction false} CoordsImageSnoc(es: seq<Element>, i: nat)
    requires i < |es|
    ensures CoordsImage(es[..i + 1]) == CoordsImage(es[..i]) + CoordImage(es[i])
    decreases i
  {
    if i == 0 {
      assert es[..1][1..] == [];
      AppendEmpty(CoordImage(es[0]));
    } else {
      assert es[..i + 1][1..] == es[1..][..i];
      assert es[..i][1..] == es[1..][..i - 1];
      CoordsImageSnoc(es[1..], i - 1);
      Assoc(CoordImage(es[0]), CoordsImage(es[1..][..i - 1]), CoordImage(es[i]));
    }
  }

  function FlagsImage(points: seq<Point>): (s: seq<byte>)
    ensures |s| == |points|
  {
    seq(|points|, i requires 0 <= i < |points| => PreferredFlag(points[i]))
  }

  /** The header `Serialize` stores: numberOfContours is the contour count cut by the `(short)` cast. */
  function WrittenHeader(g: SimpleGlyph): GlyphHeader
  {
    g.header.(numberOfContours := Signed(16, |g.endPtsOfContours| % 0x1_0000))
  }

  /** The bytes `SerializeGlyphData` writes, part after part. */
  function DataImage(g: SimpleGlyph): (s: seq<byte>)
    ensures |s| == DataSize(g)
  {
    LayoutSizes();
    TimesIsProduct(|g.endPtsOfContours|, 2);
    EncodeArray(EndLayout, EndRows(g.endPtsOfContours)) +
    (BE16(|g.instructions| % 0x1_0000) +
     (g.instructions +
      (FlagsImage(g.points) +
       (CoordsImage(Xs(g.points)) + CoordsImage(Ys(g.points))))))
  }

  /** The bytes of a whole entry: the written header, then the data. */
  function EntryImage(g: SimpleGlyph): (s: seq<byte>)
    ensures |s| == EntrySize(g)
  {
    LayoutSizes();
    FixedTable.Serialize(HeaderLayout, HeaderRow(WrittenHeader(g))) + DataImage(g)
  }

  /** `GetGlyphDataSize`, with its loop over the points. */
  method GetGlyphDataSize(g: SimpleGlyph) returns (size: nat)
    ensures size == DataSize(g)
  {
    var endPtsOfContoursSize := 2 * |g.endPtsOfContours|;
    var instructionSize := 2 + |g.instructions|;
    var flagsSize := |g.points|;
    var coordsSize := 0;
    ghost var xs, ys := Xs(g.points), Ys(g.points);
    var i := 0;
    while i < |g.points|
      invariant 0 <= i <= |g.points|
      invariant coordsSize == CoordsLength(xs[..i]) + CoordsLength(ys[..i])
    {
      var p := g.points[i];
      CoordsImageSnoc(xs, i);
      CoordsImageSnoc(ys, i);
      if IsValueOnArray(p.x) {
        coordsSize := coordsSize + if p.x.shortVector then 1 else 2;
      }
      if IsValueOnArray(p.y) {
        coordsSize := coordsSize + if p.y.shortVector then 1 else 2;
      }
      i := i + 1;
    }
    assert xs[..i] == xs && ys[..i] == ys;
    size := endPtsOfContoursSize + instructionSize + flagsSize + coordsSize;
  }

  /** One coordinate pass of `SerializeGlyphData`: the array entries of every element in turn. */
  method SerializeCoords(es: seq<Element>) returns (image: seq<byte>)
    ensures image == CoordsImage(es)
  {
    image := [];
    var i := 0;
    while i < |es|
      invariant 0 <= i <= |es|
      invariant image == CoordsImage(es[..i])
    {
      var e := es[i];
      CoordsImageSnoc(es, i);
      if IsValueOnArray(e) {
        if e.shortVector {
          image := image + [e.rawCoordValue % 0x100];
        } else {
          image := image + BE16(Unsigned(16, e.rawCoordValue));
        }
      }
      i := i + 1;
    }
    assert es[..i] == es;
  }

  /**
   * `SerializeGlyphData` into a destination of destLength bytes:
   * ArgumentException unless it is exactly the data size,
   * InvalidOperationException when the contour ends do not announce the
   * point count; otherwise the updated header and the data bytes.
   */
  method SerializeGlyphData(g: SimpleGlyph, destLength: int) returns (res: Result<(GlyphHeader, seq<byte>)>)
    ensures destLength != DataSize(g) ==> res == Err(Argument)
    ensures destLength == DataSize(g) && NumPoints(g.endPtsOfContours) != |g.points| ==>
      res == Err(InvalidOperation(""))
    ensures destLength == DataSize(g) && NumPoints(g.endPtsOfContours) == |g.points| ==>
      res == Ok((WrittenHeader(g), DataImage(g)))
  {
    var size := GetGlyphDataSize(g);
    if size != destLength {
      return Err(Argument);
    }
    var n := |g.endPtsOfContours|;
    var numPoints := if n == 0 then 0 else g.endPtsOfContours[n - 1] as int + 1;
    if numPoints != |g.points| {
      return Err(InvalidOperation(""));
    }
    var h := g.header.(numberOfContours := Signed(16, n % 0x1_0000));
    var ends := SerializeEndPts(g.endPtsOfContours);
    var instructionLength := BE16(|g.instructions| % 0x1_0000);
    var flags := SerializeFlags(g.points);
    var xs := SerializeCoords(Xs(g.points));
    var ys := SerializeCoords(Ys(g.points));
    res := Ok((h, ends + (instructionLength + (g.instructions + (flags + (xs + ys))))));
  }

  /** The contour-end loop of `SerializeGlyphData`: one big-endian 16-bit value per end. */
  method SerializeEndPts(endPts: seq<u16>) returns (image: seq<byte>)
    ensures image == EncodeArray(EndLayout, EndRows(endPts))
  {
    ghost var rows := EndRows(endPts);
    image := [];
    var i := 0;
    while i < |endPts|
      invariant 0 <= i <= |endPts|
      invariant AllConform(EndLayout, rows[..i])
      invariant image == EncodeArray(EndLayout, rows[..i])
    {
      EncodeArraySnoc(EndLayout, rows, i);
      assert Encode(EndLayout, rows[i]) == BE16(endPts[i]) + [];
      image := image + BE16(endPts[i]);
      i := i + 1;
    }
    assert rows[..i] == rows;
  }

  /** The flag loop of `SerializeGlyphData`: one preferred flag byte per point, no repeats. */
  method SerializeFlags(points: seq<Point>) returns (image: seq<byte>)
    ensures image == FlagsImage(points)
  {
    image := [];
    var i := 0;
    while i < |points|
      invariant 0 <= i <= |points|
      invariant image == FlagsImage(points[..i])
    {
      assert FlagsImage(points[..i + 1]) == FlagsImage(points[..i]) + [PreferredFlag(points[i])];
      image := image + [PreferredFlag(points[i])];
      i := i + 1;
    }
    assert points[..i] == points;
  }

  /**
   * The entry's `Serialize` into a destination of destLength bytes:
   * ArgumentException unless it is exactly the entry's size; then the data
   * after the header and the updated header at offset 0.
   */
  method SerializeEntry(g: SimpleGlyph, destLength: int) returns (res: Result<(SimpleGlyph, seq<byte>)>)
    ensures destLength != EntrySize(g) ==> res == Err(Argument)
    ensures destLength == EntrySize(g) && NumPoints(g.endPtsOfContours) != |g.points| ==>
      res == Err(InvalidOperation(""))
    ensures destLength == EntrySize(g) && NumPoints(g.endPtsOfContours) == |g.points| ==>
      res == Ok((g.(header := WrittenHeader(g)), EntryImage(g)))
  {
    var dataSize := GetGlyphDataSize(g);
    if 10 + dataSize != destLength {
      return Err(Argument);
    }
    var data := SerializeGlyphData(g, destLength - 10);
    if data.Err? {
      return Err(data.error);
    }
    var header := data.value.0;
    LayoutSizes();
    res := Ok((g.(header := header), FixedTable.Serialize(HeaderLayout, HeaderRow(header)) + data.value.1));
  }
  // ------------------------------------------------------------ parsing

  /** `ReadUnaligned<U16>(n)`: n contour ends. */
  function ReadEndPts(r: BufferReaders.Reader, n: nat): (res: Result<(seq<u16>, BufferReaders.Reader)>)
    ensures res.Ok? ==> |res.value.0| == n
  {
    var x :- BufferReaders.ReadUnalignedArray(r, 2, n);
    LayoutSizes();
    TimesIsProduct(n, 2);
    Ok((EndsOf(DecodeArray(EndLayout, x.0, n)), x.1))
  }

  function Copies(p: Point, k: nat): (s: seq<Point>)
    ensures |s| == k
  {
    seq(k, _ => p)
  }

  /**
   * One turn of the flag loop with `remaining` points still to come: a flag
   * byte makes a point and, unless it was the last one, a repeat flag's
   * count byte asks for as many copies as still fit.  The point, the number
   * of copies and the new state.
   */
  function ReadRun(r: BufferReaders.Reader, remaining: nat): (res: Result<(Point, nat, BufferReaders.Reader)>)
    requires remaining > 0
    ensures res.Ok? ==> res.value.1 < remaining
  {
    var f :- BufferReaders.ReadUnaligned(r, 1);
    var point := PointOfFlag(f.0[0]);
    if remaining == 1 || !Repeat(f.0[0]) then Ok((point, 0, f.1))
    else
      var c :- BufferReaders.ReadUnaligned(f.1, 1);
      Ok((point, if c.0[0] < remaining - 1 then c.0[0] else remaining - 1, c.1))
  }

  /** The flag pass of `DeserializeGlyph`: runs until `remaining` points are made. */
  function ReadFlagRuns(r: BufferReaders.Reader, remaining: nat): (res: Result<(seq<Point>, BufferReaders.Reader)>)
    ensures res.Ok? ==> |res.value.0| == remaining
    decreases remaining
  {
    if remaining == 0 then Ok(([], r))
    else
      var run :- ReadRun(r, remaining);
      BufferReaders.Prepend([run.0] + Copies(run.0, run.1), ReadFlagRuns(run.2, remaining - 1 - run.1))
  }

  /** One coordinate of a parsed point: nothing, an unsigned byte or a 16-bit value, as its flags say, stored through the raw setter. */
  function ReadCoord(r: BufferReaders.Reader, e: Element): Result<(Element, BufferReaders.Reader)>
  {
    // The setter's range check cannot fire: a short value is read as a byte.
    if !IsValueOnArray(e) then
      Ok((SetRawCoord(e, 0).value, r))
    else if e.shortVector then
      var b :- BufferReaders.ReadUnaligned(r, 1);
      Ok((SetRawCoord(e, b.0[0]).value, b.1))
    else
      var w :- BufferReaders.ReadUnaligned(r, 2);
      Ok((SetRawCoord(e, Signed(16, U16At(w.0, 0))).value, w.1))
  }

  /** A coordinate pass: every element in turn. */
  function ReadCoords(r: BufferReaders.Reader, es: seq<Element>): (res: Result<(seq<Element>, BufferReaders.Reader)>)
    ensures res.Ok? ==> |res.value.0| == |es|
    decreases |es|
  {
    if |es| == 0 then Ok(([], r))
    else
      var x :- ReadCoord(r, es[0]);
      BufferReaders.Prepend([x.0], ReadCoords(x.1, es[1..]))
  }

  /** The part of `DeserializeGlyph` before the outline: n contour ends, the instruction length and the instructions. */
  function ReadPrefix(r: BufferReaders.Reader, n: nat): (res: Result<(seq<u16>, seq<byte>, BufferReaders.Reader)>)
    ensures res.Ok? ==> |res.value.0| == n
  {
    var ends :- ReadEndPts(r, n);
    var len :- BufferReaders.ReadUnaligned(ends.1, 2);
    var instructions :- BufferReaders.ReadBytes(len.1, U16At(len.0, 0));
    Ok((ends.0, instructions.0, instructions.1))
  }

  /**
   * `DeserializeGlyph` under a header announcing numberOfContours >= 0: the
   * prefix, then, since the point count is the last contour end plus one,
   * ArgumentOutOfRange when there is no contour, and the outline.
   */
  function ReadGlyph(header: GlyphHeader, r: BufferReaders.Reader): Result<(SimpleGlyph, BufferReaders.Reader)>
    requires header.numberOfContours >= 0
  {
    var n := header.numberOfContours as nat;
    var prefix :- ReadPrefix(r, n);
    if n == 0 then Err(ArgumentOutOfRange)
    else
      var points :- ReadPoints(prefix.2, NumPoints(prefix.0));
      Ok((SimpleGlyph(header, prefix.1, points.0, prefix.0), points.1))
  }

  /** The outline part of `DeserializeGlyph`: the flags of numPoints points, then their x and their y values. */
  function ReadPoints(r: BufferReaders.Reader, numPoints: nat): Result<(seq<Point>, BufferReaders.Reader)>
  {
    var flags :- ReadFlagRuns(r, numPoints);
    var xs :- ReadCoords(flags.1, Xs(flags.0));
    var ys :- ReadCoords(xs.1, Ys(flags.0));
    Ok((WithCoords(flags.0, xs.0, ys.0), ys.1))
  }

  /** `TtfTableGlyfEntry.Create`: the header, then a simple glyph; composite glyphs (numberOfContours < 0) are NotImplementedException. */
  function Create(r: BufferReaders.Reader): Result<(SimpleGlyph, BufferReaders.Reader)>
  {
    var h :- FixedTable.Deserialize(r, HeaderLayout);
    var header := HeaderOf(h.0);
    if header.numberOfContours < 0 then Err(NotImplemented) else ReadGlyph(header, h.1)
  }

  /** `TtfTableGlyfEntry.Create` as `TtfTableGlyf.cs` runs it: the header read, then the glyph's own parser. */
  method CreateEntry(r: BufferReaders.Reader) returns (res: Result<(SimpleGlyph, BufferReaders.Reader)>)
    ensures res == Create(r)
  {
    var h := FixedTable.Deserialize(r, HeaderLayout);
    if h.Err? {
      return Err(h.error);
    }
    var header := HeaderOf(h.value.0);
    if header.numberOfContours < 0 {
      return Err(NotImplemented);
    }
    res := DeserializeGlyph(header, h.value.1);
  }

  /** The flag loop of `DeserializeGlyph`. */
  method DecodeFlags(r: BufferReaders.Reader, numPoints: nat) returns (res: Result<(seq<Point>, BufferReaders.Reader)>)
    ensures res == ReadFlagRuns(r, numPoints)
  {
    var points: seq<Point> := [];
    var cur := r;
    var pointCursor := 0;
    ghost var left: nat := numPoints;
    BufferReaders.PrependNil(ReadFlagRuns(r, numPoints));
    while pointCursor < numPoints
      invariant pointCursor <= numPoints && |points| == pointCursor && left == numPoints - pointCursor
      invariant ReadFlagRuns(r, numPoints) == BufferReaders.Prepend(points, ReadFlagRuns(cur, left))
      decreases left
    {
      ghost var before, start := points, cur;
      var run := DecodeRun(cur, numPoints - pointCursor);
      if run.Err? {
        return Err(run.error);
      }
      var point, copies := run.value.0, run.value.1;
      cur := run.value.2;
      points := points + [point];
      pointCursor := pointCursor + 1;
      points := AppendCopies(points, point, copies);
      assert points == before + ([point] + Copies(point, copies));
      pointCursor := pointCursor + copies;
      FlagRunsStep(start, left, point, copies, cur);
      left := left - 1 - copies;
      BufferReaders.PrependAssoc(before, [point] + Copies(point, copies), ReadFlagRuns(cur, left));
    }
    // The "Invalid number of points" check in `TtfTableGlyf.cs` after the loop never fires.
    assert left == 0;
    AppendEmpty(points);
    res := Ok((points, cur));
  }

  /** The copying loop of a repeated flag: the point appended `copies` more times. */
  method AppendCopies(points: seq<Point>, point: Point, copies: nat) returns (res: seq<Point>)
    ensures res == points + Copies(point, copies)
  {
    res := points;
    var j := 0;
    while j < copies
      invariant 0 <= j <= copies && res == points + Copies(point, j)
    {
      assert Copies(point, j + 1) == Copies(point, j) + [point];
      res := res + [point];
      j := j + 1;
    }
  }

  /**
   * The reads of one turn of the flag loop: the flag, and its repeat count
   * when the flag asks for one and points remain after it.  The count is cut
   * to the points that remain: the copying loop in `TtfTableGlyf.cs` stops at numPoints
   * and leaves the outer loop with `break`.
   */
  method DecodeRun(r: BufferReaders.Reader, remaining: nat) returns (res: Result<(Point, nat, BufferReaders.Reader)>)
    requires remaining > 0
    ensures res == ReadRun(r, remaining)
  {
    var f := BufferReaders.ReadUnaligned(r, 1);
    if f.Err? {
      return Err(f.error);
    }
    var flag := f.value.0[0];
    var point := PointOfFlag(flag);
    if remaining == 1 || !Repeat(flag) {
      return Ok((point, 0, f.value.1));
    }
    var c := BufferReaders.ReadUnaligned(f.value.1, 1);
    if c.Err? {
      return Err(c.error);
    }
    var count := c.value.0[0];
    res := Ok((point, if count < remaining - 1 then count else remaining - 1, c.value.1));
  }

  /** One turn of `ReadFlagRuns`: a run, then the runs of the points it leaves. */
  lemma {:induction false} FlagRunsStep(r: BufferReaders.Reader, remaining: nat, point: Point, copies: nat, next: BufferReaders.Reader)
    requires remaining > 0 && ReadRun(r, remaining) == Ok((point, copies, next))
    ensures ReadFlagRuns(r, remaining) ==
      BufferReaders.Prepend([point] + Copies(point, copies), ReadFlagRuns(next, remaining - 1 - copies))
  {
  }

  /** A coordinate loop of `DeserializeGlyph`. */
  method DecodeCoords(r: BufferReaders.Reader, es: seq<Element>) returns (res: Result<(seq<Element>, BufferReaders.Reader)>)
    ensures res == ReadCoords(r, es)
  {
    var out: seq<Element> := [];
    var cur := r;
    var i := 0;
    BufferReaders.PrependNil(ReadCoords(r, es));
    while i < |es|
      invariant 0 <= i <= |es|
      invariant ReadCoords(r, es) == BufferReaders.Prepend(out, ReadCoords(cur, es[i..]))
    {
      var e := es[i];
      var value: i16;
      var next := cur;
      if !IsValueOnArray(e) {
        value := 0;
      } else if e.shortVector {
        var b := BufferReaders.ReadUnaligned(cur, 1);
        if b.Err? {
          return Err(b.error);
        }
        value := b.value.0[0];
        next := b.value.1;
      } else {
        var w := BufferReaders.ReadUnaligned(cur, 2);
        if w.Err? {
          return Err(w.error);
        }
        value := Signed(16, U16At(w.value.0, 0));
        next := w.value.1;
      }
      var stored := SetRawCoord(e, value).value;
      assert ReadCoord(cur, e) == Ok((stored, next));
      assert es[i..][1..] == es[i + 1..];
      BufferReaders.PrependAssoc(out, [stored], ReadCoords(next, es[i + 1..]));
      out := out + [stored];
      cur := next;
      i := i + 1;
    }
    AppendEmpty(out);
    res := Ok((out, cur));
  }

  /** `DeserializeGlyph`, with its loops. */
  method DeserializeGlyph(header: GlyphHeader, r: BufferReaders.Reader) returns (res: Result<(SimpleGlyph, BufferReaders.Reader)>)
    requires header.numberOfContours >= 0
    ensures res == ReadGlyph(header, r)
  {
    var n := header.numberOfContours as nat;
    var ends := ReadEndPts(r, n);
    if ends.Err? {
      assert ReadPrefix(r, n) == Err(ends.error);
      return Err(ends.error);
    }
    var len := BufferReaders.ReadUnaligned(ends.value.1, 2);
    if len.Err? {
      assert ReadPrefix(r, n) == Err(len.error);
      return Err(len.error);
    }
    var instructions := BufferReaders.ReadBytes(len.value.1, U16At(len.value.0, 0));
    if instructions.Err? {
      assert ReadPrefix(r, n) == Err(instructions.error);
      return Err(instructions.error);
    }
    assert ReadPrefix(r, n) == Ok((ends.value.0, instructions.value.0, instructions.value.1));
    if n == 0 {
      return Err(ArgumentOutOfRange);
    }
    var numPoints := ends.value.0[n - 1] as int + 1;
    assert numPoints == NumPoints(ends.value.0);
    var points := DecodePoints(instructions.value.1, numPoints);
    if points.Err? {
      return Err(points.error);
    }
    res := Ok((SimpleGlyph(header, instructions.value.0, points.value.0, ends.value.0), points.value.1));
  }

  /** The outline reads of `DeserializeGlyph`: the flags, then the x deltas, then the y deltas. */
  method DecodePoints(r: BufferReaders.Reader, numPoints: nat) returns (res: Result<(seq<Point>, BufferReaders.Reader)>)
    ensures res == ReadPoints(r, numPoints)
  {
    var flags := DecodeFlags(r, numPoints);
    if flags.Err? {
      return Err(flags.error);
    }
    var xs := DecodeCoords(flags.value.1, Xs(flags.value.0));
    if xs.Err? {
      return Err(xs.error);
    }
    var ys := DecodeCoords(xs.value.1, Ys(flags.value.0));
    if ys.Err? {
      return Err(ys.error);
    }
    res := Ok((WithCoords(flags.value.0, xs.value.0, ys.value.0), ys.value.1));
  }
  // ------------------------------------------------------------ round trip

  /** The value parsing stores for an element it reads back from the element's own array entry. */
  function StoredRaw(e: Element): i16
  {
    if !IsValueOnArray(e) then 0 else if e.shortVector then e.rawCoordValue % 0x100 else e.rawCoordValue
  }

  /** The element parsing makes of e's flags and array entry. */
  function Restored(e: Element): (r: Element)
    ensures Valid(r) && r.shortVector == e.shortVector && r.flag == e.flag && r.rawCoordValue == StoredRaw(e)
  {
    SetRawCoord(NewElement(e.shortVector, e.flag), StoredRaw(e)).value
  }

  /** An element as the setters leave it, with nothing stored when it is not on the array (what `SetCoord` makes). */
  predicate Canonical(e: Element)
  {
    Valid(e) && (!IsValueOnArray(e) ==> e.rawCoordValue == 0)
  }

  /** Parsing keeps the delta of a valid element, keeps the element when it is canonical, and otherwise only drops a raw value that was never written. */
  lemma {:induction false} RestoredKeepsDelta(e: Element)
    requires Valid(e)
    ensures Restored(e).coordValue == e.coordValue
    ensures IsValueOnArray(e) ==> Restored(e) == e
    ensures !IsValueOnArray(e) ==> Restored(e) == e.(rawCoordValue := 0)
    ensures Canonical(e) ==> Restored(e) == e
  {
  }

  function Blanks(es: seq<Element>): (r: seq<Element>)
    ensures |r| == |es|
  {
    seq(|es|, i requires 0 <= i < |es| => NewElement(es[i].shortVector, es[i].flag))
  }

  function RestoredAll(es: seq<Element>): (r: seq<Element>)
    ensures |r| == |es|
  {
    seq(|es|, i requires 0 <= i < |es| => Restored(es[i]))
  }

  function Blanked(points: seq<Point>): (r: seq<Point>)
    ensures |r| == |points|
  {
    seq(|points|, i requires 0 <= i < |points| => Blank(points[i]))
  }

  /** The points parsing makes of the written points. */
  function RestoredPoints(points: seq<Point>): (r: seq<Point>)
    ensures |r| == |points|
  {
    seq(|points|, i requires 0 <= i < |points| => Point(points[i].onCurve, Restored(points[i].x), Restored(points[i].y)))
  }

  /** A glyph whose coordinates are all canonical is parsed back exactly. */
  lemma {:induction false} RestoredCanonical(points: seq<Point>)
    requires forall i :: 0 <= i < |points| ==> Canonical(points[i].x) && Canonical(points[i].y)
    ensures RestoredPoints(points) == points
  {
    forall i | 0 <= i < |points|
      ensures RestoredPoints(points)[i] == points[i]
    {
      RestoredKeepsDelta(points[i].x);
      RestoredKeepsDelta(points[i].y);
    }
  }

  lemma {:induction false} ReadCoordOf(img: seq<byte>, p: nat, e: Element)
    requires p + CoordBytes(e) <= |img| && img[p..p + CoordBytes(e)] == CoordImage(e)
    ensures ReadCoord(BufferReaders.Reader(img, p), NewElement(e.shortVector, e.flag)) ==
      Ok((Restored(e), BufferReaders.Reader(img, p + CoordBytes(e))))
  {
    if IsValueOnArray(e) && !e.shortVector {
      BE16RoundTrip(Unsigned(16, e.rawCoordValue), img[p..p + 2], 0);
    }
  }

  /** A coordinate pass over the image of a list of elements reads back every element's stored value. */
  lemma {:induction false} ReadCoordsOf(img: seq<byte>, p: nat, q: nat, es: seq<Element>)
    requires q == p + CoordsLength(es) && q <= |img| && img[p..q] == CoordsImage(es)
    ensures ReadCoords(BufferReaders.Reader(img, p), Blanks(es)) == Ok((RestoredAll(es), BufferReaders.Reader(img, q)))
    decreases |es|
  {
    if |es| > 0 {
      var mid := p + CoordBytes(es[0]);
      assert Blanks(es)[1..] == Blanks(es[1..]);
      assert RestoredAll(es) == [Restored(es[0])] + RestoredAll(es[1..]);
      SplitWindow(img, p, mid, q, CoordImage(es[0]), CoordsImage(es[1..]));
      ReadCoordOf(img, p, es[0]);
      ReadCoordsOf(img, mid, q, es[1..]);
      CoordsStep(BufferReaders.Reader(img, p), Blanks(es), Restored(es[0]), BufferReaders.Reader(img, mid));
    } else {
      assert RestoredAll(es) == [];
    }
  }

  /** One turn of `ReadCoords`. */
  lemma {:induction false} CoordsStep(r: BufferReaders.Reader, es: seq<Element>, x: Element, next: BufferReaders.Reader)
    requires |es| > 0 && ReadCoord(r, es[0]) == Ok((x, next))
    ensures ReadCoords(r, es) == BufferReaders.Prepend([x], ReadCoords(next, es[1..]))
  {
  }

  /** The flag pass over the flags of a list of points makes a blank point of each, with no repeats. */
  lemma {:induction false} ReadFlagsOf(img: seq<byte>, p: nat, q: nat, points: seq<Point>, n: nat)
    requires n == |points| && q == p + n <= |img| && img[p..q] == FlagsImage(points)
    ensures ReadFlagRuns(BufferReaders.Reader(img, p), n) == Ok((Blanked(points), BufferReaders.Reader(img, q)))
    decreases n
  {
    if n == 0 {
      assert Blanked(points) == [];
    } else {
      assert FlagsImage(points) == [PreferredFlag(points[0])] + FlagsImage(points[1..]);
      SplitWindow(img, p, p + 1, q, [PreferredFlag(points[0])], FlagsImage(points[1..]));
      var point := Blank(points[0]);
      assert Blanked(points) == [point] + Copies(point, 0) + Blanked(points[1..]);
      assert img[p] == PreferredFlag(points[0]);
      FlagRoundTrip(points[0]);
      assert ReadRun(BufferReaders.Reader(img, p), n) == Ok((point, 0, BufferReaders.Reader(img, p + 1)));
      FlagRunsStep(BufferReaders.Reader(img, p), n, point, 0, BufferReaders.Reader(img, p + 1));
      ReadFlagsOf(img, p + 1, q, points[1..], n - 1 - 0);
    }
  }

  /** The contour ends read back from their image. */
  lemma {:induction false} ReadEndPtsOf(img: seq<byte>, p: nat, q: nat, ends: seq<u16>)
    requires q == p + 2 * |ends| <= |img| && img[p..q] == EncodeArray(EndLayout, EndRows(ends))
    ensures ReadEndPts(BufferReaders.Reader(img, p), |ends|) == Ok((ends, BufferReaders.Reader(img, q)))
  {
    LayoutSizes();
    var rows := EndRows(ends);
    ArrayRoundTrip(EndLayout, rows, []);
    AppendEmpty(EncodeArray(EndLayout, rows));
    assert EndsOf(rows) == ends;
  }

  /** Where each part of the data image lies once it is written at base, ending at q. */
  lemma {:induction false} DataWindows(img: seq<byte>, base: nat, q: nat, g: SimpleGlyph,
      p1: nat, p2: nat, p3: nat, p4: nat, p5: nat)
    requires q == base + DataSize(g) <= |img| && img[base..q] == DataImage(g)
    requires p1 == base + 2 * |g.endPtsOfContours| && p2 == p1 + 2 && p3 == p2 + |g.instructions|
    requires p4 == p3 + |g.points| && p5 == p4 + CoordsLength(Xs(g.points))
    ensures p5 + CoordsLength(Ys(g.points)) == q
    ensures img[base..p1] == EncodeArray(EndLayout, EndRows(g.endPtsOfContours))
    ensures img[p1..p2] == BE16(|g.instructions| % 0x1_0000)
    ensures img[p2..p3] == g.instructions
    ensures img[p3..p4] == FlagsImage(g.points)
    ensures img[p4..p5] == CoordsImage(Xs(g.points))
    ensures img[p5..q] == CoordsImage(Ys(g.points))
  {
    LayoutSizes();
    TimesIsProduct(|g.endPtsOfContours|, 2);
    var ends := EncodeArray(EndLayout, EndRows(g.endPtsOfContours));
    var lenImage := BE16(|g.instructions| % 0x1_0000);
    var flags := FlagsImage(g.points);
    var xs, ys := CoordsImage(Xs(g.points)), CoordsImage(Ys(g.points));
    SplitWindow(img, base, p1, q, ends, lenImage + (g.instructions + (flags + (xs + ys))));
    SplitWindow(img, p1, p2, q, lenImage, g.instructions + (flags + (xs + ys)));
    SplitWindow(img, p2, p3, q, g.instructions, flags + (xs + ys));
    SplitWindow(img, p3, p4, q, flags, xs + ys);
    SplitWindow(img, p4, p5, q, xs, ys);
  }

  /** The flag pass and both coordinate passes over the images of a list of points. */
  lemma {:induction false} ReadPointsOf(img: seq<byte>, p3: nat, p4: nat, p5: nat, q: nat, points: seq<Point>, n: nat)
    requires n == |points| && p4 == p3 + n && p5 == p4 + CoordsLength(Xs(points))
    requires q == p5 + CoordsLength(Ys(points)) <= |img|
    requires img[p3..p4] == FlagsImage(points)
    requires img[p4..p5] == CoordsImage(Xs(points)) && img[p5..q] == CoordsImage(Ys(points))
    ensures ReadPoints(BufferReaders.Reader(img, p3), n) == Ok((RestoredPoints(points), BufferReaders.Reader(img, q)))
  {
    var flags := Blanked(points);
    assert Xs(flags) == Blanks(Xs(points));
    assert Ys(flags) == Blanks(Ys(points));
    assert WithCoords(flags, RestoredAll(Xs(points)), RestoredAll(Ys(points))) == RestoredPoints(points);
    ReadFlagsOf(img, p3, p4, points, n);
    ReadCoordsOf(img, p4, p5, Xs(points));
    ReadCoordsOf(img, p5, q, Ys(points));
    ReadPointsSteps(BufferReaders.Reader(img, p3), n, flags, BufferReaders.Reader(img, p4),
      RestoredAll(Xs(points)), BufferReaders.Reader(img, p5), RestoredAll(Ys(points)), BufferReaders.Reader(img, q));
  }

  /** `ReadPoints` when its three passes succeed. */
  lemma {:induction false} ReadPointsSteps(r: BufferReaders.Reader, n: nat, flags: seq<Point>, r1: BufferReaders.Reader,
      xs: seq<Element>, r2: BufferReaders.Reader, ys: seq<Element>, r3: BufferReaders.Reader)
    requires |flags| == n && |xs| == n && |ys| == n
    requires ReadFlagRuns(r, n) == Ok((flags, r1))
    requires ReadCoords(r1, Xs(flags)) == Ok((xs, r2))
    requires ReadCoords(r2, Ys(flags)) == Ok((ys, r3))
    ensures ReadPoints(r, n) == Ok((WithCoords(flags, xs, ys), r3))
  {
  }

  /** The prefix of an entry, read from the windows of its contour ends, instruction length and instructions. */
  lemma {:induction false} ReadPrefixOf(img: seq<byte>, base: nat, n: nat, ends: seq<u16>, instructions: seq<byte>,
      p1: nat, p2: nat, p3: nat)
    requires n == |ends| && |instructions| < 0x1_0000
    requires p1 == base + 2 * |ends| && p2 == p1 + 2 && p3 == p2 + |instructions| <= |img|
    requires img[base..p1] == EncodeArray(EndLayout, EndRows(ends))
    requires img[p1..p2] == BE16(|instructions| % 0x1_0000)
    requires img[p2..p3] == instructions
    ensures ReadPrefix(BufferReaders.Reader(img, base), n) == Ok((ends, instructions, BufferReaders.Reader(img, p3)))
  {
    assert |instructions| % 0x1_0000 == |instructions|;
    BE16Decodes(|instructions|);
    assert BufferReaders.ReadUnaligned(BufferReaders.Reader(img, p1), 2) ==
      Ok((img[p1..p2], BufferReaders.Reader(img, p2)));
    BufferReaders.ReadBytesOf(img, p2, p3, instructions);
    ReadEndPtsOf(img, base, p1, ends);
  }

  /** `ReadGlyph` when its prefix and its outline read succeed. */
  lemma {:induction false} ReadGlyphSteps(header: GlyphHeader, r: BufferReaders.Reader,
      ends: seq<u16>, instructions: seq<byte>, r3: BufferReaders.Reader, points: seq<Point>, r4: BufferReaders.Reader)
    requires header.numberOfContours > 0
    requires ReadPrefix(r, header.numberOfContours as nat) == Ok((ends, instructions, r3))
    requires ReadPoints(r3, NumPoints(ends)) == Ok((points, r4))
    ensures ReadGlyph(header, r) == Ok((SimpleGlyph(header, instructions, points, ends), r4))
  {
  }

  /** The data of an entry, parsed at its start under a header announcing its contours, from its parts' windows. */
  lemma {:induction false} ReadDataOf(img: seq<byte>, base: nat, q: nat, header: GlyphHeader, g: SimpleGlyph,
      p1: nat, p2: nat, p3: nat, p4: nat, p5: nat)
    requires header.numberOfContours as int == |g.endPtsOfContours| > 0
    requires |g.instructions| < 0x1_0000 && NumPoints(g.endPtsOfContours) == |g.points|
    requires p1 == base + 2 * |g.endPtsOfContours| && p2 == p1 + 2 && p3 == p2 + |g.instructions|
    requires p4 == p3 + |g.points| && p5 == p4 + CoordsLength(Xs(g.points))
    requires q == p5 + CoordsLength(Ys(g.points)) <= |img|
    requires img[base..p1] == EncodeArray(EndLayout, EndRows(g.endPtsOfContours))
    requires img[p1..p2] == BE16(|g.instructions| % 0x1_0000)
    requires img[p2..p3] == g.instructions
    requires img[p3..p4] == FlagsImage(g.points)
    requires img[p4..p5] == CoordsImage(Xs(g.points))
    requires img[p5..q] == CoordsImage(Ys(g.points))
    ensures ReadGlyph(header, BufferReaders.Reader(img, base)) ==
      Ok((SimpleGlyph(header, g.instructions, RestoredPoints(g.points), g.endPtsOfContours), BufferReaders.Reader(img, q)))
  {
    ReadPrefixOf(img, base, header.numberOfContours as nat, g.endPtsOfContours, g.instructions, p1, p2, p3);
    ReadPointsOf(img, p3, p4, p5, q, g.points, NumPoints(g.endPtsOfContours));
    ReadGlyphSteps(header, BufferReaders.Reader(img, base), g.endPtsOfContours, g.instructions,
      BufferReaders.Reader(img, p3), RestoredPoints(g.points), BufferReaders.Reader(img, q));
  }

  /** The data image of an entry, parsed where it lies under a header announcing its contours. */
  lemma {:induction false} DataRoundTrip(img: seq<byte>, base: nat, q: nat, header: GlyphHeader, g: SimpleGlyph)
    requires header.numberOfContours as int == |g.endPtsOfContours| > 0
    requires |g.instructions| < 0x1_0000 && NumPoints(g.endPtsOfContours) == |g.points|
    requires q == base + DataSize(g) <= |img| && img[base..q] == DataImage(g)
    ensures ReadGlyph(header, BufferReaders.Reader(img, base)) ==
      Ok((SimpleGlyph(header, g.instructions, RestoredPoints(g.points), g.endPtsOfContours), BufferReaders.Reader(img, q)))
  {
    var p1 := base + 2 * |g.endPtsOfContours|;
    var p3 := p1 + 2 + |g.instructions|;
    var p4 := p3 + |g.points|;
    var p5 := p4 + CoordsLength(Xs(g.points));
    DataWindows(img, base, q, g, p1, p1 + 2, p3, p4, p5);
    ReadDataOf(img, base, q, header, g, p1, p1 + 2, p3, p4, p5);
  }

  /** `Create` over a header image followed by data that parses under that header. */
  lemma {:induction false} CreateOf(img: seq<byte>, header: GlyphHeader, res: Result<(SimpleGlyph, BufferReaders.Reader)>)
    requires 10 <= |img| && img[..10] == FixedTable.Serialize(HeaderLayout, HeaderRow(header))
    requires header.numberOfContours >= 0 && ReadGlyph(header, BufferReaders.Reader(img, 10)) == res
    ensures Create(BufferReaders.Fresh(img)) == res
  {
    LayoutSizes();
    var r := BufferReaders.Fresh(img);
    assert r.buffer[r.cursor..r.cursor + Size(HeaderLayout)] == img[..10];
    FixedTable.RoundTrip(r, HeaderLayout, HeaderRow(header));
    assert BufferReaders.Advance(r, Size(HeaderLayout)) == BufferReaders.Reader(img, 10);
    assert HeaderOf(HeaderRow(header)) == header;
  }

  /**
   * A serialized entry parses back, whatever follows it: the written header,
   * the instructions and the contour ends, and every point with its flags and
   * deltas (the raw value of a coordinate that is not on the array is not
   * written and comes back as 0).  The conditions are what the writer's
   * `(short)` and `(ushort)` casts and its point-count check need.
   */
  lemma {:induction false} EntryRoundTrip(g: SimpleGlyph, rest: seq<byte>)
    requires 0 < |g.endPtsOfContours| < 0x8000 && |g.instructions| < 0x1_0000
    requires NumPoints(g.endPtsOfContours) == |g.points|
    ensures Create(BufferReaders.Fresh(EntryImage(g) + rest)) ==
      Ok((SimpleGlyph(WrittenHeader(g), g.instructions, RestoredPoints(g.points), g.endPtsOfContours),
          BufferReaders.Reader(EntryImage(g) + rest, EntrySize(g))))
  {
    var header := WrittenHeader(g);
    assert |g.endPtsOfContours| % 0x1_0000 == |g.endPtsOfContours| < Half(16);
    assert header.numberOfContours as int == |g.endPtsOfContours|;
    LayoutSizes();
    var img := EntryImage(g) + rest;
    var headerImage := FixedTable.Serialize(HeaderLayout, HeaderRow(header));
    MiddleOf(headerImage, DataImage(g), rest);
    DataRoundTrip(img, 10, EntrySize(g), header, g);
    CreateOf(img, header, Ok((SimpleGlyph(header, g.instructions, RestoredPoints(g.points), g.endPtsOfContours),
      BufferReaders.Reader(img, EntrySize(g)))));
  }
}
