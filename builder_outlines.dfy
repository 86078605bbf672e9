/**
 * The builder's outline conversion: `ToTrueTypeGlyph` turns a builder
 * glyph's contours into a simple `glyf` entry of on-curve points stored as
 * 16-bit deltas, with its bounding box and its contour ends, and
 * `BuildGlyfAndHmtx` does so for every glyph in glyph order, recording each
 * glyph's advance width and left side bearing in `hmtx`
 * (`src/Builder/TrueTypeFontBuilder.cs`).
 */
module BuilderOutlines {
  import opened Bytes
  import opened Wrappers
  import opened BuilderGlyphs
  import Glyf
  import GlyfTable
  import Hmtx

  /** The C# `(short)` cast: the value's low 16 bits read as two's complement. */
  function Short(x: int): (r: i16)
    ensures -0x8000 <= x < 0x8000 ==> r == x
  {
    var u := x % 0x1_0000;
    if u < 0x8000 then u else u - 0x1_0000
  }

  /** Casting a sum to `short` only depends on the low 16 bits of its first term. */
  lemma {:induction false} ShortAdd(a: int, b: int)
    ensures Short(Short(a) + b) == Short(a + b)
  {
    var q := a / 0x1_0000;
    assert a == q * 0x1_0000 + a % 0x1_0000;
    var x := a % 0x1_0000 + b;
    assert a + b == x + q * 0x1_0000;
    assert (x + q * 0x1_0000) % 0x1_0000 == x % 0x1_0000;
    assert (x - 0x1_0000) % 0x1_0000 == x % 0x1_0000;
  }

  /** A point's x relative to the glyph's offset, as a `short`. */
  function ShiftedX(offset: u16, p: XY): i16
  {
    Short(p.x - offset)
  }

  /** A point's y relative to the baseline, as a `short`. */
  function ShiftedY(s: Settings, p: XY): i16
  {
    Short(p.y - s.baseline)
  }

  // ------------------------------------------------------------ the point loop

  /** The locals of the point loop: the cursor, the bounding box so far and the points added. */
  datatype Pen = Pen(cursorX: i16, cursorY: i16, xMin: i16, yMin: i16, xMax: i16, yMax: i16,
                     points: seq<Glyf.Point>)

  /** Before the first point: the cursor at the origin, `xMin` and `yMin` at `short.MaxValue`, `xMax` and `yMax` at 0. */
  const StartPen: Pen := Pen(0, 0, 0x7FFF, 0x7FFF, 0, 0, [])

  /** A coordinate element holding the delta `d`. */
  function Delta(d: i16): Glyf.Element
  {
    Glyf.SetCoord(Glyf.Element(false, false, 0, 0), d)
  }

  /** One turn of the point loop: the point's delta from the cursor, the cursor moved to it, the box widened. */
  function Step(s: Settings, offset: u16, pen: Pen, p: XY): Pen
  {
    var px := ShiftedX(offset, p);
    var py := ShiftedY(s, p);
    Pen(px, py,
        if px < pen.xMin then px else pen.xMin,
        if py < pen.yMin then py else pen.yMin,
        if px > pen.xMax then px else pen.xMax,
        if py > pen.yMax then py else pen.yMax,
        pen.points + [Glyf.Point(true, Delta(Short(px - pen.cursorX)), Delta(Short(py - pen.cursorY)))])
  }

  /** The point loop over `ps`, from the start. */
  function Walk(s: Settings, offset: u16, ps: seq<XY>): Pen
  {
    if |ps| == 0 then StartPen else Step(s, offset, Walk(s, offset, ps[..|ps| - 1]), ps[|ps| - 1])
  }

  /** `endPtsOfContours`: after each contour, the number of points so far minus one, cut to 16 bits. */
  function Ends(contours: seq<seq<XY>>): (ends: seq<u16>)
  {
    if |contours| == 0 then []
    else Ends(contours[..|contours| - 1]) + [(|Flat(contours)| - 1) % 0x1_0000]
  }

  /** What `ToTrueTypeGlyph` gives: the entry, and the `width` and `lsb` out-parameters. */
  datatype Outline = Outline(entry: GlyfTable.Entry, width: u16, lsb: i16)

  /**
   * `ToTrueTypeGlyph`: a glyph without contours has a null entry and a left
   * side bearing of 0; otherwise its points, shifted by the glyph's offset
   * and the baseline, become on-curve points stored as deltas, under a
   * header holding their bounding box, and the left side bearing is the
   * box's `xMin`.  Either way the width is `GetGlyphSize`'s.
   */
  function OutlineOf(s: Settings, g: BuilderGlyph): Outline
  {
    var size := SizeOf(s, g);
    if !HasContours(g) then Outline(None, size.width, 0)
    else
      var pen := Walk(s, size.offset, Flat(g.contours));
      var header := Glyf.GlyphHeader(0, pen.xMin, pen.yMin, pen.xMax, pen.yMax);
      Outline(Some(Glyf.SimpleGlyph(header, [], pen.points, Ends(g.contours))), size.width, pen.xMin)
  }

  // ------------------------------------------------------------ what the walk computes

  lemma {:induction false} WalkSnoc(s: Settings, offset: u16, ps: seq<XY>, p: XY)
    ensures Walk(s, offset, ps + [p]) == Step(s, offset, Walk(s, offset, ps), p)
  {
    assert (ps + [p])[..|ps|] == ps;
  }

  /** One point per input point, each on the curve; the cursor ends on the last point. */
  lemma {:induction false} WalkPoints(s: Settings, offset: u16, ps: seq<XY>)
    ensures var pen := Walk(s, offset, ps);
            && |pen.points| == |ps|
            && (forall k :: 0 <= k < |ps| ==> pen.points[k].onCurve)
            && (|ps| == 0 ==> pen.cursorX == 0 && pen.cursorY == 0)
            && (|ps| > 0 ==> pen.cursorX == ShiftedX(offset, ps[|ps| - 1]) && pen.cursorY == ShiftedY(s, ps[|ps| - 1]))
  {
    if |ps| > 0 {
      WalkPoints(s, offset, ps[..|ps| - 1]);
    }
  }

  /** The shifted x of every point. */
  function ShiftsX(offset: u16, ps: seq<XY>): (vs: seq<int>)
    ensures |vs| == |ps| && forall k :: 0 <= k < |ps| ==> vs[k] == ShiftedX(offset, ps[k])
  {
    seq(|ps|, k requires 0 <= k < |ps| => ShiftedX(offset, ps[k]) as int)
  }

  /** The shifted y of every point. */
  function ShiftsY(s: Settings, ps: seq<XY>): (vs: seq<int>)
    ensures |vs| == |ps| && forall k :: 0 <= k < |ps| ==> vs[k] == ShiftedY(s, ps[k])
  {
    seq(|ps|, k requires 0 <= k < |ps| => ShiftedY(s, ps[k]) as int)
  }

  /** The x deltas stored in `pts`. */
  function DeltasX(pts: seq<Glyf.Point>): (ds: seq<int>)
    ensures |ds| == |pts|
  {
    seq(|pts|, k requires 0 <= k < |pts| => pts[k].x.coordValue as int)
  }

  /** The y deltas stored in `pts`. */
  function DeltasY(pts: seq<Glyf.Point>): (ds: seq<int>)
    ensures |ds| == |pts|
  {
    seq(|pts|, k requires 0 <= k < |pts| => pts[k].y.coordValue as int)
  }

  /** Each delta is the step, cut to 16 bits, from the previous value (from 0 for the first). */
  predicate Chain(vs: seq<int>, ds: seq<int>)
  {
    && |ds| == |vs|
    && (|vs| > 0 ==> ds[0] == Short(vs[0]))
    && forall k :: 0 < k < |vs| ==> ds[k] == Short(vs[k] - vs[k - 1])
  }

  lemma {:induction false} ShiftsSnoc(s: Settings, offset: u16, ps: seq<XY>, p: XY)
    ensures ShiftsX(offset, ps + [p]) == ShiftsX(offset, ps) + [ShiftedX(offset, p) as int]
    ensures ShiftsY(s, ps + [p]) == ShiftsY(s, ps) + [ShiftedY(s, p) as int]
  {
    assert ShiftsX(offset, ps + [p]) == ShiftsX(offset, ps) + [ShiftedX(offset, p) as int];
  }

  lemma {:induction false} DeltasSnoc(pts: seq<Glyf.Point>, p: Glyf.Point)
    ensures DeltasX(pts + [p]) == DeltasX(pts) + [p.x.coordValue as int]
    ensures DeltasY(pts + [p]) == DeltasY(pts) + [p.y.coordValue as int]
  {
    assert DeltasX(pts + [p]) == DeltasX(pts) + [p.x.coordValue as int];
  }

  lemma {:induction false} ChainSnoc(vs: seq<int>, ds: seq<int>, v: int, d: int)
    requires Chain(vs, ds) && d == Short(v - (if |vs| == 0 then 0 else vs[|vs| - 1]))
    ensures Chain(vs + [v], ds + [d])
  {
  }

  /** The deltas the walk stores chain the shifted coordinates. */
  lemma {:induction false} WalkChains(s: Settings, offset: u16, ps: seq<XY>)
    ensures Chain(ShiftsX(offset, ps), DeltasX(Walk(s, offset, ps).points))
    ensures Chain(ShiftsY(s, ps), DeltasY(Walk(s, offset, ps).points))
  {
    if |ps| > 0 {
      var n := |ps|;
      var front, last := ps[..n - 1], ps[n - 1];
      var pen := Walk(s, offset, front);
      assert ps == front + [last];
      WalkChains(s, offset, front);
      WalkPoints(s, offset, front);
      WalkSnoc(s, offset, front, last);
      var px, py := ShiftedX(offset, last), ShiftedY(s, last);
      var point := Glyf.Point(true, Delta(Short(px - pen.cursorX)), Delta(Short(py - pen.cursorY)));
      ShiftsSnoc(s, offset, front, last);
      DeltasSnoc(pen.points, point);
      ChainSnoc(ShiftsX(offset, front), DeltasX(pen.points), px, point.x.coordValue);
      ChainSnoc(ShiftsY(s, front), DeltasY(pen.points), py, point.y.coordValue);
    }
  }

  lemma {:induction false} ChainDecodesAt(vs: seq<int>, ds: seq<int>, k: nat)
    requires Chain(vs, ds) && k < |vs|
    requires forall j :: 0 <= j < |vs| ==> -0x8000 <= vs[j] < 0x8000
    ensures Short(Sum(ds[..k + 1])) == vs[k]
  {
    assert ds[..k + 1][..k] == ds[..k];
    if k == 0 {
      assert ds[..0] == [];
      assert Sum(ds[..1]) == ds[0];
      DeltaLands(0, 0, vs[0]);
    } else {
      ChainDecodesAt(vs, ds, k - 1);
      DeltaLands(Sum(ds[..k]), vs[k - 1], vs[k]);
    }
  }

  /** Adding up the first k + 1 deltas of a chain, in 16 bits, gives the k-th value back. */
  lemma {:induction false} ChainDecodes(vs: seq<int>, ds: seq<int>)
    requires Chain(vs, ds)
    requires forall j :: 0 <= j < |vs| ==> -0x8000 <= vs[j] < 0x8000
    ensures forall k :: 0 <= k < |vs| ==> Short(Sum(ds[..k + 1])) == vs[k]
  {
    forall k | 0 <= k < |vs|
      ensures Short(Sum(ds[..k + 1])) == vs[k]
    {
      ChainDecodesAt(vs, ds, k);
    }
  }

  /** The delta of a point brings the 16-bit running sum from the cursor onto the point. */
  lemma {:induction false} DeltaLands(sum: int, cursor: int, target: int)
    requires Short(sum) == cursor && -0x8000 <= target < 0x8000
    ensures Short(sum + Short(target - cursor)) == target
  {
    ShortAdd(target - cursor, sum);
    ShortAdd(sum, target - cursor);
    assert sum + (target - cursor) == target - cursor + sum;
  }

  /**
   * The deltas decode: adding up the first k + 1 deltas, in 16 bits, gives
   * the k-th point shifted by the offset and the baseline.
   */
  lemma {:induction false} WalkDecodes(s: Settings, offset: u16, ps: seq<XY>)
    ensures var pts := Walk(s, offset, ps).points;
            |pts| == |ps| &&
            forall k :: 0 <= k < |ps| ==>
              Short(Sum(DeltasX(pts)[..k + 1])) == ShiftedX(offset, ps[k]) &&
              Short(Sum(DeltasY(pts)[..k + 1])) == ShiftedY(s, ps[k])
  {
    var pts := Walk(s, offset, ps).points;
    WalkPoints(s, offset, ps);
    WalkChains(s, offset, ps);
    ChainDecodes(ShiftsX(offset, ps), DeltasX(pts));
    ChainDecodes(ShiftsY(s, ps), DeltasY(pts));
  }

  /** The loop's running minimum, from `start`. */
  function Lowest(start: int, vs: seq<int>): int
  {
    if |vs| == 0 then start
    else
      var m := Lowest(start, vs[..|vs| - 1]);
      if vs[|vs| - 1] < m then vs[|vs| - 1] else m
  }

  /** The loop's running maximum, from `start`. */
  function Highest(start: int, vs: seq<int>): int
  {
    if |vs| == 0 then start
    else
      var m := Highest(start, vs[..|vs| - 1]);
      if vs[|vs| - 1] > m then vs[|vs| - 1] else m
  }

  /** The running minimum is at most the start and every value, and is the start or one of the values. */
  lemma {:induction false} LowestMeans(start: int, vs: seq<int>)
    ensures Lowest(start, vs) <= start
    ensures forall k :: 0 <= k < |vs| ==> Lowest(start, vs) <= vs[k]
    ensures Lowest(start, vs) == start || exists k :: 0 <= k < |vs| && vs[k] == Lowest(start, vs)
  {
    if |vs| > 0 {
      var front := vs[..|vs| - 1];
      LowestMeans(start, front);
      assert forall k :: 0 <= k < |front| ==> vs[k] == front[k];
      if Lowest(start, front) != start && Lowest(start, front) <= vs[|vs| - 1] {
        var k :| 0 <= k < |front| && front[k] == Lowest(start, front);
        assert vs[k] == Lowest(start, vs);
      }
    }
  }

  /** The running maximum is at least the start and every value, and is the start or one of the values. */
  lemma {:induction false} HighestMeans(start: int, vs: seq<int>)
    ensures start <= Highest(start, vs)
    ensures forall k :: 0 <= k < |vs| ==> vs[k] <= Highest(start, vs)
    ensures Highest(start, vs) == start || exists k :: 0 <= k < |vs| && vs[k] == Highest(start, vs)
  {
    if |vs| > 0 {
      var front := vs[..|vs| - 1];
      HighestMeans(start, front);
      assert forall k :: 0 <= k < |front| ==> vs[k] == front[k];
      if Highest(start, front) != start && vs[|vs| - 1] <= Highest(start, front) {
        var k :| 0 <= k < |front| && front[k] == Highest(start, front);
        assert vs[k] == Highest(start, vs);
      }
    }
  }

  /** The walk's box is the running minimum from `short.MaxValue` and maximum from 0 of the shifted coordinates. */
  lemma {:induction false} WalkExtremes(s: Settings, offset: u16, ps: seq<XY>)
    ensures var pen := Walk(s, offset, ps);
            && pen.xMin == Lowest(0x7FFF, ShiftsX(offset, ps)) && pen.xMax == Highest(0, ShiftsX(offset, ps))
            && pen.yMin == Lowest(0x7FFF, ShiftsY(s, ps)) && pen.yMax == Highest(0, ShiftsY(s, ps))
  {
    if |ps| > 0 {
      var front := ps[..|ps| - 1];
      WalkExtremes(s, offset, front);
      assert ShiftsX(offset, ps)[..|ps| - 1] == ShiftsX(offset, front);
      assert ShiftsY(s, ps)[..|ps| - 1] == ShiftsY(s, front);
    }
  }

  /**
   * The box: `xMin`/`yMin` are at most every shifted coordinate and
   * `xMax`/`yMax` at least every one; `xMin`/`yMin` are attained once
   * there is a point, and `xMax`/`yMax` are attained unless they are the
   * starting 0.
   */
  lemma {:induction false} WalkBox(s: Settings, offset: u16, ps: seq<XY>)
    ensures var pen, xs, ys := Walk(s, offset, ps), ShiftsX(offset, ps), ShiftsY(s, ps);
            && (forall k :: 0 <= k < |ps| ==> pen.xMin <= xs[k] <= pen.xMax && pen.yMin <= ys[k] <= pen.yMax)
            && 0 <= pen.xMax && 0 <= pen.yMax
            && (|ps| > 0 ==> (exists k :: 0 <= k < |ps| && xs[k] == pen.xMin) && (exists k :: 0 <= k < |ps| && ys[k] == pen.yMin))
            && (pen.xMax == 0 || exists k :: 0 <= k < |ps| && xs[k] == pen.xMax)
            && (pen.yMax == 0 || exists k :: 0 <= k < |ps| && ys[k] == pen.yMax)
  {
    var xs, ys := ShiftsX(offset, ps), ShiftsY(s, ps);
    WalkExtremes(s, offset, ps);
    LowestMeans(0x7FFF, xs);
    HighestMeans(0, xs);
    LowestMeans(0x7FFF, ys);
    HighestMeans(0, ys);
    if |ps| > 0 {
      if Lowest(0x7FFF, xs) == 0x7FFF {
        assert xs[0] == 0x7FFF;
      }
      if Lowest(0x7FFF, ys) == 0x7FFF {
        assert ys[0] == 0x7FFF;
      }
    }
  }

  lemma {:induction false} EndsAt(contours: seq<seq<XY>>)
    ensures |Ends(contours)| == |contours|
    ensures forall c :: 0 <= c < |contours| ==> Ends(contours)[c] == (|Flat(contours[..c + 1])| - 1) % 0x1_0000
  {
    if |contours| > 0 {
      var n := |contours|;
      var front := contours[..n - 1];
      EndsAt(front);
      forall c | 0 <= c < n - 1
        ensures Ends(contours)[c] == (|Flat(contours[..c + 1])| - 1) % 0x1_0000
      {
        assert front[..c + 1] == contours[..c + 1];
      }
      assert contours[..n] == contours;
    }
  }

  /**
   * Each contour ends on the last point so far: while the count fits in 16
   * bits and is not 0, its end is the count minus one; a first contour with
   * no points gets the end 65535.  So the whole outline announces as many
   * points as it holds when there are between 1 and 65536 of them.
   */
  lemma {:induction false} EndsCount(contours: seq<seq<XY>>)
    ensures |Ends(contours)| == |contours|
    ensures forall c :: 0 <= c < |contours| && 0 < |Flat(contours[..c + 1])| <= 0x1_0000 ==>
              Ends(contours)[c] as int + 1 == |Flat(contours[..c + 1])|
    ensures forall c :: 0 <= c < |contours| && |Flat(contours[..c + 1])| == 0 ==> Ends(contours)[c] == 0xFFFF
    ensures 0 < |Flat(contours)| <= 0x1_0000 ==> Glyf.NumPoints(Ends(contours)) == |Flat(contours)|
  {
    EndsAt(contours);
    if |contours| > 0 {
      assert contours[..|contours| - 1 + 1] == contours;
    }
  }

  /**
   * What a converted glyph with contours holds: one on-curve point per
   * contour point whose deltas add up to the shifted points, a header
   * whose box bounds them (attained at the minimum), contour ends that
   * count the points, and a left side bearing equal to the box's `xMin`.
   */
  lemma {:induction false} OutlineMeans(s: Settings, g: BuilderGlyph)
    requires HasContours(g)
    ensures var o, ps, offset := OutlineOf(s, g), Flat(g.contours), SizeOf(s, g).offset;
            && o.entry.Some? && o.width == SizeOf(s, g).width
            && var e := o.entry.value;
            && o.lsb == e.header.xMin && e.header.numberOfContours == 0 && e.instructions == []
            && |e.points| == |ps| && |e.endPtsOfContours| == |g.contours|
            && (forall k :: 0 <= k < |ps| ==> e.points[k].onCurve)
            && (forall k :: 0 <= k < |ps| ==>
                  Short(Sum(DeltasX(e.points)[..k + 1])) == ShiftedX(offset, ps[k]) &&
                  Short(Sum(DeltasY(e.points)[..k + 1])) == ShiftedY(s, ps[k]))
            && (forall k :: 0 <= k < |ps| ==>
                  e.header.xMin <= ShiftsX(offset, ps)[k] <= e.header.xMax && e.header.yMin <= ShiftsY(s, ps)[k] <= e.header.yMax)
            && (|ps| > 0 ==> exists k :: 0 <= k < |ps| && ShiftsX(offset, ps)[k] == e.header.xMin)
            && (0 < |ps| <= 0x1_0000 ==> Glyf.NumPoints(e.endPtsOfContours) == |ps|)
  {
    var ps, offset := Flat(g.contours), SizeOf(s, g).offset;
    WalkPoints(s, offset, ps);
    WalkDecodes(s, offset, ps);
    WalkBox(s, offset, ps);
    EndsCount(g.contours);
  }

  /** A glyph without contours has no entry, a left side bearing of 0 and `GetGlyphSize`'s width. */
  lemma {:induction false} OutlineEmpty(s: Settings, g: BuilderGlyph)
    requires !HasContours(g)
    ensures OutlineOf(s, g) == Outline(None, SizeOf(s, g).width, 0)
  {
  }

  // ------------------------------------------------------------ ToTrueTypeGlyph

  /** One turn of the inner loop, on the loop's locals. */
  method AddPoint(s: Settings, offset: u16, pen0: Pen, p: XY) returns (pen: Pen)
    ensures pen == Step(s, offset, pen0, p)
  {
    var cursorX, cursorY := pen0.cursorX, pen0.cursorY;
    var xMin, yMin, xMax, yMax := pen0.xMin, pen0.yMin, pen0.xMax, pen0.yMax;
    var px := Short(p.x - offset);
    var py := Short(p.y - s.baseline);
    var dx := Short(px as int - cursorX);
    var dy := Short(py as int - cursorY);
    cursorX, cursorY := px, py;
    if px < xMin {
      xMin := px;
    }
    if py < yMin {
      yMin := py;
    }
    if px > xMax {
      xMax := px;
    }
    if py > yMax {
      yMax := py;
    }
    pen := Pen(cursorX, cursorY, xMin, yMin, xMax, yMax, pen0.points + [Glyf.Point(true, Delta(dx), Delta(dy))]);
  }

  lemma {:induction false} WalkOn(s: Settings, offset: u16, before: seq<XY>, c: seq<XY>, j: nat)
    requires j < |c|
    ensures Walk(s, offset, before + c[..j + 1]) == Step(s, offset, Walk(s, offset, before + c[..j]), c[j])
  {
    var prefix := before + c[..j];
    assert before + c[..j + 1] == prefix + [c[j]] by {
      assert c[..j + 1] == c[..j] + [c[j]];
    }
    WalkSnoc(s, offset, prefix, c[j]);
  }

  /** The inner loop of `ToTrueTypeGlyph`: the points of one contour, after the points `before`. */
  method AddContour(s: Settings, offset: u16, ghost before: seq<XY>, c: seq<XY>, pen0: Pen, pointIndex0: int)
    returns (pen: Pen, pointIndex: int)
    requires pen0 == Walk(s, offset, before) && pointIndex0 == |before|
    ensures pen == Walk(s, offset, before + c) && pointIndex == |before + c|
  {
    pen, pointIndex := pen0, pointIndex0;
    assert before + c[..0] == before;
    for j := 0 to |c|
      invariant pen == Walk(s, offset, before + c[..j]) && pointIndex == |before| + j
    {
      WalkOn(s, offset, before, c, j);
      pen := AddPoint(s, offset, pen, c[j]);
      pointIndex := pointIndex + 1;
    }
    assert c[..|c|] == c;
  }

  lemma {:induction false} EndsSnoc(contours: seq<seq<XY>>, i: nat)
    requires i < |contours|
    ensures Ends(contours[..i + 1]) == Ends(contours[..i]) + [(|Flat(contours[..i + 1])| - 1) % 0x1_0000]
  {
    assert contours[..i + 1][..i] == contours[..i];
  }

  /** The outer loop of `ToTrueTypeGlyph`: every contour's points, then its end. */
  method AddContours(s: Settings, offset: u16, contours: seq<seq<XY>>) returns (pen: Pen, ends: seq<u16>)
    ensures pen == Walk(s, offset, Flat(contours)) && ends == Ends(contours)
  {
    pen := StartPen;
    ends := [];
    var pointIndex: int := 0;
    for i := 0 to |contours|
      invariant pen == Walk(s, offset, Flat(contours[..i]))
      invariant pointIndex == |Flat(contours[..i])|
      invariant ends == Ends(contours[..i])
    {
      FlatSnoc(contours, i);
      EndsSnoc(contours, i);
      pen, pointIndex := AddContour(s, offset, Flat(contours[..i]), contours[i], pen, pointIndex);
      ends := ends + [(pointIndex - 1) % 0x1_0000];
    }
    assert contours[..|contours|] == contours;
  }

  /** `ToTrueTypeGlyph`. */
  method ToTrueTypeGlyph(s: Settings, g: BuilderGlyph) returns (entry: GlyfTable.Entry, width: u16, lsb: i16)
    ensures Outline(entry, width, lsb) == OutlineOf(s, g)
  {
    var isEmpty := !HasContours(g);
    var size := GetGlyphSize(s, g);
    width := size.width;
    if isEmpty {
      return None, width, 0;
    }
    var pen, ends := AddContours(s, size.offset, g.contours);
    var header := Glyf.GlyphHeader(0, pen.xMin, pen.yMin, pen.xMax, pen.yMax);
    entry := Some(Glyf.SimpleGlyph(header, [], pen.points, ends));
    lsb := pen.xMin;
  }

  // ------------------------------------------------------------ BuildGlyfAndHmtx

  /** The `glyf` entries of `glyphs`, in order. */
  function EntriesOf(s: Settings, glyphs: seq<BuilderGlyph>): (entries: seq<GlyfTable.Entry>)
  {
    if |glyphs| == 0 then []
    else EntriesOf(s, glyphs[..|glyphs| - 1]) + [OutlineOf(s, glyphs[|glyphs| - 1]).entry]
  }

  /** The `hmtx` long metrics of `glyphs`, in order: each glyph's width and left side bearing. */
  function MetricsOf(s: Settings, glyphs: seq<BuilderGlyph>): (metrics: seq<Hmtx.LongHorMetric>)
  {
    if |glyphs| == 0 then []
    else
      var o := OutlineOf(s, glyphs[|glyphs| - 1]);
      MetricsOf(s, glyphs[..|glyphs| - 1]) + [Hmtx.LongHorMetric(o.width, o.lsb)]
  }

  /** `BuildGlyfAndHmtx` over the glyphs in glyph order: an aligned `glyf` and an `hmtx` of long metrics only. */
  function GlyfAndHmtx(s: Settings, glyphs: seq<BuilderGlyph>): (GlyfTable.GlyfTable, Hmtx.HmtxData)
  {
    (GlyfTable.GlyfTable(true, EntriesOf(s, glyphs)), Hmtx.HmtxData(MetricsOf(s, glyphs), []))
  }

  lemma {:induction false} EntriesAt(s: Settings, glyphs: seq<BuilderGlyph>)
    ensures |EntriesOf(s, glyphs)| == |MetricsOf(s, glyphs)| == |glyphs|
    ensures forall i :: 0 <= i < |glyphs| ==>
              var o := OutlineOf(s, glyphs[i]);
              EntriesOf(s, glyphs)[i] == o.entry && MetricsOf(s, glyphs)[i] == Hmtx.LongHorMetric(o.width, o.lsb)
  {
    if |glyphs| > 0 {
      var front := glyphs[..|glyphs| - 1];
      EntriesAt(s, front);
      assert forall i :: 0 <= i < |front| ==> glyphs[i] == front[i];
    }
  }

  /**
   * The two tables agree: `hmtx` has one long metric per `glyf` entry (so
   * it validates against that glyph count); each metric's advance is the
   * glyph's width, and its left side bearing is its entry's `xMin`, or 0
   * for a null entry.
   */
  lemma {:induction false} GlyfAndHmtxAgree(s: Settings, glyphs: seq<BuilderGlyph>)
    ensures var (glyf, hmtx) := GlyfAndHmtx(s, glyphs);
            && glyf.align && |glyf.entries| == |glyphs|
            && Hmtx.Validate(hmtx, |glyf.entries|).Ok?
            && forall i :: 0 <= i < |glyphs| ==>
                 && hmtx.longHorMetric[i].advanceWidth == SizeOf(s, glyphs[i]).width
                 && (glyf.entries[i].None? <==> !HasContours(glyphs[i]))
                 && hmtx.longHorMetric[i].leftSideBearing == (if glyf.entries[i].Some? then glyf.entries[i].value.header.xMin else 0)
  {
    EntriesAt(s, glyphs);
    forall i | 0 <= i < |glyphs|
      ensures var o := OutlineOf(s, glyphs[i]);
              && o.width == SizeOf(s, glyphs[i]).width && (o.entry.None? <==> !HasContours(glyphs[i]))
              && o.lsb == (if o.entry.Some? then o.entry.value.header.xMin else 0)
    {
      if HasContours(glyphs[i]) {
        OutlineMeans(s, glyphs[i]);
      }
    }
  }

  /** `BuildGlyfAndHmtx`, given the glyphs in glyph order (glyph 0, glyph 1, then the mapped glyphs by code). */
  method BuildGlyfAndHmtx(s: Settings, glyphs: seq<BuilderGlyph>) returns (glyf: GlyfTable.GlyfTable, hmtx: Hmtx.HmtxData)
    ensures (glyf, hmtx) == GlyfAndHmtx(s, glyphs)
  {
    var entries: seq<GlyfTable.Entry> := [];
    var metrics: seq<Hmtx.LongHorMetric> := [];
    for i := 0 to |glyphs|
      invariant entries == EntriesOf(s, glyphs[..i]) && metrics == MetricsOf(s, glyphs[..i])
    {
      var entry, width, lsb := ToTrueTypeGlyph(s, glyphs[i]);
      entries := entries + [entry];
      metrics := metrics + [Hmtx.LongHorMetric(width, lsb)];
      assert glyphs[..i + 1][..i] == glyphs[..i];
    }
    assert glyphs[..|glyphs|] == glyphs;
    glyf := GlyfTable.GlyfTable(true, entries);
    hmtx := Hmtx.HmtxData(metrics, []);
  }
}
