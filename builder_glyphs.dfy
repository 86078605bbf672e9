/**
 * What the builder consumes: `IBuilderGlyph`, `IBuilderGlyphBitmap`,
 * `IBuilderBitmapSheet` and `IBuilderGlyphContour` (`src/Builder/`) as
 * plain values, and `EmptyGlyph`, the glyph the builder uses for glyph 0
 * by default, for the null glyph 1 and for the space it adds.  Also the
 * builder's metric settings and `GetGlyphSize`, which both the outline and
 * the bitmap conversion use.
 */
module BuilderGlyphs {
  import opened Bytes
  import opened Wrappers

  /** How the builder measures a glyph's horizontal extent. */
  datatype WidthMode = FullMonospace | TrimAuto | Manual

  /** A point of a contour, in sheet units. */
  datatype XY = XY(x: u16, y: u16)

  /** A bitmap sheet: `SheetWidth` × `SheetHeight` pixels row by row in `Bitmap`. */
  datatype Sheet = Sheet(width: int, height: int, pixels: seq<byte>)

  /** Where a glyph's bitmap sits on its sheet. */
  datatype GlyphBitmap = GlyphBitmap(width: int, height: int, x: int, y: int, sheet: Sheet)

  /**
   * A glyph as the builder sees it: its width mode and manual metrics, its
   * contours (each the list of its points) and, when `TryGetBitmap`
   * succeeds, its bitmap.
   */
  datatype BuilderGlyph = BuilderGlyph(
    widthMode: WidthMode, manualOffset: u16, manualWidth: u16,
    contours: seq<seq<XY>>, bitmap: Option<GlyphBitmap>)

  /** `Contours.Any()`: at least one contour, even an empty one. */
  predicate HasContours(g: BuilderGlyph)
  {
    |g.contours| > 0
  }

  /** The bitmap an `EmptyGlyph` gives: itself, 0×0 at (0, 0) on a 0×0 sheet with no pixels. */
  const EmptyBitmap: GlyphBitmap := GlyphBitmap(0, 0, 0, 0, Sheet(0, 0, []))

  /** `new EmptyGlyph()`: full monospace width, no contours, an empty bitmap. */
  function EmptyGlyph(): (g: BuilderGlyph)
    ensures g.widthMode == FullMonospace && !HasContours(g) && g.bitmap == Some(EmptyBitmap)
  {
    BuilderGlyph(FullMonospace, 0, 0, [], Some(EmptyBitmap))
  }

  /** `new EmptyGlyph(width)`: a manual width of `width` at offset 0, no contours, an empty bitmap. */
  function EmptyGlyphOf(width: u16): (g: BuilderGlyph)
    ensures g.widthMode == Manual && g.manualWidth == width && g.manualOffset == 0
    ensures !HasContours(g) && g.bitmap == Some(EmptyBitmap)
  {
    BuilderGlyph(Manual, 0, width, [], Some(EmptyBitmap))
  }

  // ------------------------------------------------------------ settings and glyph size

  /** The builder's metric properties that the glyph conversions read. */
  datatype Settings = Settings(
    unitsPerEm: u16, baseline: u16, metricWidth: u16, metricHeight: u16,
    autoTrimPadding: u16, pointScale: i32)

  /** What `GetGlyphSize` gives: where the glyph starts on the x axis and how wide it is. */
  datatype GlyphSize = GlyphSize(offset: u16, width: u16)

  /** All points of all contours, contour by contour, in enumeration order. */
  function Flat(contours: seq<seq<XY>>): (ps: seq<XY>)
  {
    if |contours| == 0 then [] else Flat(contours[..|contours| - 1]) + contours[|contours| - 1]
  }

  /** The trim loop's `xmin`: it starts at 65535 and each point lowers it. */
  function LeastX(ps: seq<XY>): u16
  {
    if |ps| == 0 then 0xFFFF
    else
      var m := LeastX(ps[..|ps| - 1]);
      if ps[|ps| - 1].x < m then ps[|ps| - 1].x else m
  }

  /** The trim loop's `xmax`: it starts at 0 and each point raises it. */
  function GreatestX(ps: seq<XY>): u16
  {
    if |ps| == 0 then 0
    else
      var m := GreatestX(ps[..|ps| - 1]);
      if ps[|ps| - 1].x > m then ps[|ps| - 1].x else m
  }

  /** `Math.Min` on two ints. */
  function Min(a: int, b: int): int
  {
    if a <= b then a else b
  }

  /**
   * `GetGlyphSize`: full monospace is the whole metric width from 0; an
   * automatically trimmed glyph without contours is the padding (or the
   * metric width when the padding is 0); one with contours spans its
   * points plus the padding, clamped to the metric width and cut to 16
   * bits; a manual glyph gives its own offset and width.
   */
  function SizeOf(s: Settings, g: BuilderGlyph): GlyphSize
  {
    match g.widthMode
    case FullMonospace => GlyphSize(0, s.metricWidth)
    case TrimAuto =>
      if !HasContours(g) then
        GlyphSize(0, if s.autoTrimPadding > 0 then s.autoTrimPadding else s.metricWidth)
      else
        var ps := Flat(g.contours);
        var xmin := LeastX(ps);
        GlyphSize(xmin, Min(GreatestX(ps) - xmin + s.autoTrimPadding, s.metricWidth) % 0x1_0000)
    case Manual => GlyphSize(g.manualOffset, g.manualWidth)
  }

  lemma {:induction false} FlatSnoc(contours: seq<seq<XY>>, i: nat)
    requires i < |contours|
    ensures Flat(contours[..i + 1]) == Flat(contours[..i]) + contours[i]
  {
    assert contours[..i + 1][..i] == contours[..i];
  }

  lemma {:induction false} ExtremesSnoc(ps: seq<XY>, p: XY)
    ensures LeastX(ps + [p]) == if p.x < LeastX(ps) then p.x else LeastX(ps)
    ensures GreatestX(ps + [p]) == if p.x > GreatestX(ps) then p.x else GreatestX(ps)
  {
    assert (ps + [p])[..|ps|] == ps;
  }

  /** The least x is at most every point's x and, when there are points, is one of them. */
  lemma {:induction false} LeastXMeans(ps: seq<XY>)
    ensures forall i :: 0 <= i < |ps| ==> LeastX(ps) <= ps[i].x
    ensures |ps| > 0 ==> exists i :: 0 <= i < |ps| && ps[i].x == LeastX(ps)
  {
    if |ps| > 0 {
      var front := ps[..|ps| - 1];
      LeastXMeans(front);
      assert forall i :: 0 <= i < |front| ==> ps[i] == front[i];
      if LeastX(front) <= ps[|ps| - 1].x && |front| > 0 {
        var i :| 0 <= i < |front| && front[i].x == LeastX(front);
        assert ps[i].x == LeastX(ps);
      }
    }
  }

  /** The greatest x is at least every point's x and, when there are points, is one of them. */
  lemma {:induction false} GreatestXMeans(ps: seq<XY>)
    ensures forall i :: 0 <= i < |ps| ==> ps[i].x <= GreatestX(ps)
    ensures |ps| > 0 ==> exists i :: 0 <= i < |ps| && ps[i].x == GreatestX(ps)
  {
    if |ps| > 0 {
      var front := ps[..|ps| - 1];
      GreatestXMeans(front);
      assert forall i :: 0 <= i < |front| ==> ps[i] == front[i];
      if ps[|ps| - 1].x <= GreatestX(front) && |front| > 0 {
        var i :| 0 <= i < |front| && front[i].x == GreatestX(front);
        assert ps[i].x == GreatestX(ps);
      }
    }
  }

  /**
   * A trimmed glyph with at least one point starts at its leftmost point,
   * and its width is the span of its points plus the padding, capped at the
   * metric width; the 16-bit cut never changes it.
   */
  lemma {:induction false} TrimmedSize(s: Settings, g: BuilderGlyph)
    requires g.widthMode == TrimAuto && |Flat(g.contours)| > 0
    ensures var ps, r := Flat(g.contours), SizeOf(s, g);
            && (forall i :: 0 <= i < |ps| ==> r.offset <= ps[i].x)
            && (exists i :: 0 <= i < |ps| && ps[i].x == r.offset)
            && (exists i :: 0 <= i < |ps| && r.width == Min(ps[i].x - r.offset + s.autoTrimPadding, s.metricWidth)
                                           && forall j :: 0 <= j < |ps| ==> ps[j].x <= ps[i].x)
            && r.width <= s.metricWidth
  {
    var ps := Flat(g.contours);
    assert HasContours(g);
    LeastXMeans(ps);
    GreatestXMeans(ps);
    var i :| 0 <= i < |ps| && ps[i].x == GreatestX(ps);
    assert 0 <= GreatestX(ps) - LeastX(ps);
  }

  /**
   * Trimming contours that hold no point at all: `xmin` stays 65535 and
   * `xmax` 0, so the width the cast gives is the padding plus one (0 for
   * the largest padding).
   */
  lemma {:induction false} TrimmedNoPoints(s: Settings, g: BuilderGlyph)
    requires g.widthMode == TrimAuto && HasContours(g) && Flat(g.contours) == []
    ensures SizeOf(s, g) == GlyphSize(0xFFFF, (s.autoTrimPadding + 1) % 0x1_0000)
  {
  }

  /** The inner loop of the trim: the points of one contour after `before`. */
  method ContourExtent(ghost before: seq<XY>, c: seq<XY>, xmin0: u16, xmax0: u16) returns (xmin: u16, xmax: u16)
    requires xmin0 == LeastX(before) && xmax0 == GreatestX(before)
    ensures xmin == LeastX(before + c) && xmax == GreatestX(before + c)
  {
    xmin, xmax := xmin0, xmax0;
    assert before + c[..0] == before;
    for j := 0 to |c|
      invariant xmin == LeastX(before + c[..j]) && xmax == GreatestX(before + c[..j])
    {
      var p := c[j];
      ExtremesSnoc(before + c[..j], p);
      assert before + c[..j + 1] == before + c[..j] + [p];
      if p.x < xmin {
        xmin := p.x;
      }
      if p.x > xmax {
        xmax := p.x;
      }
    }
    assert c[..|c|] == c;
  }

  /** The trim loop over every point of every contour. */
  method XExtent(contours: seq<seq<XY>>) returns (xmin: u16, xmax: u16)
    ensures xmin == LeastX(Flat(contours)) && xmax == GreatestX(Flat(contours))
  {
    xmin, xmax := 0xFFFF, 0;
    for i := 0 to |contours|
      invariant xmin == LeastX(Flat(contours[..i])) && xmax == GreatestX(Flat(contours[..i]))
    {
      FlatSnoc(contours, i);
      xmin, xmax := ContourExtent(Flat(contours[..i]), contours[i], xmin, xmax);
    }
    assert contours[..|contours|] == contours;
  }

  /** `GetGlyphSize`. */
  method GetGlyphSize(s: Settings, g: BuilderGlyph) returns (size: GlyphSize)
    ensures size == SizeOf(s, g)
  {
    var isEmpty := !HasContours(g);
    match g.widthMode
    case FullMonospace =>
      size := GlyphSize(0, s.metricWidth);
    case TrimAuto =>
      if isEmpty {
        size := GlyphSize(0, if s.autoTrimPadding > 0 then s.autoTrimPadding else s.metricWidth);
      } else {
        var xmin, xmax := XExtent(g.contours);
        size := GlyphSize(xmin, Min(xmax - xmin + s.autoTrimPadding, s.metricWidth) % 0x1_0000);
      }
    case Manual =>
      size := GlyphSize(g.manualOffset, g.manualWidth);
  }
}
