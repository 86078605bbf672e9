/**
 * The builder's bitmap conversion, `TryGetTrueTypeBitmap`: the glyph's
 * cell on its sheet is scanned for set pixels, the box around them is cut
 * out, flipped upside down and given small metrics.  A cell with no set
 * pixel becomes a 1×1 placeholder.
 *
 * The scan skips rows and columns that fall off the sheet.  As written it
 * compares with `>` where `>=` is meant, so a column one past the sheet's
 * right edge is read from the start of the next row and a row one past
 * the bottom throws; `ScanRows` takes a flag that selects the comparison.
 * The conversion follows the code as written; on a cell that lies wholly
 * on its sheet the two comparisons agree, which is how the lemmas about
 * the conversion reach the corrected scan's guarantees.
 *
 * `BuildEblcAndEbdt` then runs over the glyphs in glyph order: each run of
 * consecutive glyphs that have bitmaps becomes one `EBDT` section and one
 * `EBLC` index subtable of format 1 naming its first and last glyph, all
 * in one bitmap size.
 */
module BuilderBitmaps {
  import opened Bytes
  import opened Wrappers
  import opened BuilderGlyphs
  import Checksums
  import Ebdt
  import Eblc
  import EbdtBits
  import EblcValidate

  /** C#'s `/` on `int`, which truncates toward zero for a divisor of either sign. */
  function Quot(x: int, d: int): int
    requires d != 0
  {
    if d > 0 then Checksums.DivToZero(x, d) else -Checksums.DivToZero(x, -d)
  }

  // ------------------------------------------------------------ the scan

  /**
   * What the trim loop walks: the sheet, where the glyph's cell sits on it,
   * the columns from `left` (the glyph offset) up to `right` and the rows
   * from 0 up to `height`.
   */
  datatype Scan = Scan(sheet: Sheet, bitmapX: int, bitmapY: int, left: int, right: int, height: int)

  /** The trim box: `minX`, `maxX`, `minY` and `maxY` of the loop. */
  datatype Box = Box(minX: int, maxX: int, minY: int, maxY: int)

  /** Whether a row or column at `onSheet` is skipped: past `extent`, or (as written) past `extent` by more than one. */
  predicate OffSheet(corrected: bool, onSheet: int, extent: int)
  {
    if corrected then onSheet >= extent else onSheet > extent
  }

  /** `sheetBitmap[yOnSheet * sheetWidth + xOnSheet]`, which throws outside the buffer. */
  function PixelAt(w: Scan, x: int, y: int): Result<byte>
  {
    var i := (y + w.bitmapY) * w.sheet.width + (x + w.bitmapX);
    if 0 <= i < |w.sheet.pixels| then Ok(w.sheet.pixels[i]) else Err(IndexOutOfRange)
  }

  /** The box grown to take in (x, y). */
  function Mark(b: Box, x: int, y: int): Box
  {
    Box(if x < b.minX then x else b.minX, if b.maxX < x then x else b.maxX,
        if y < b.minY then y else b.minY, if b.maxY < y then y else b.maxY)
  }

  /** The column loop of row y from column x on. */
  function ScanRow(w: Scan, corrected: bool, y: int, x: int, b: Box): Result<Box>
    decreases w.right - x
  {
    if x >= w.right then Ok(b)
    else if OffSheet(corrected, x + w.bitmapX, w.sheet.width) then ScanRow(w, corrected, y, x + 1, b)
    else
      match PixelAt(w, x, y)
      case Err(e) => Err(e)
      case Ok(p) => ScanRow(w, corrected, y, x + 1, if p > 0 then Mark(b, x, y) else b)
  }

  /** The row loop from row y on. */
  function ScanRows(w: Scan, corrected: bool, y: int, b: Box): Result<Box>
    decreases w.height - y
  {
    if y >= w.height then Ok(b)
    else if OffSheet(corrected, y + w.bitmapY, w.sheet.height) then ScanRows(w, corrected, y + 1, b)
    else
      match ScanRow(w, corrected, y, w.left, b)
      case Err(e) => Err(e)
      case Ok(b') => ScanRows(w, corrected, y + 1, b')
  }

  /** A cell of row y the column loop reads and finds set. */
  predicate HitCell(w: Scan, corrected: bool, x: int, y: int)
  {
    && w.left <= x < w.right && !OffSheet(corrected, x + w.bitmapX, w.sheet.width)
    && PixelAt(w, x, y).Ok? && PixelAt(w, x, y).value > 0
  }

  /** A cell the scan reads and finds set. */
  predicate Hit(w: Scan, corrected: bool, x: int, y: int)
  {
    0 <= y < w.height && !OffSheet(corrected, y + w.bitmapY, w.sheet.height) && HitCell(w, corrected, x, y)
  }

  predicate Inside(b: Box, x: int, y: int)
  {
    b.minX <= x <= b.maxX && b.minY <= y <= b.maxY
  }

  /** b' holds all of b. */
  predicate Wider(b': Box, b: Box)
  {
    b'.minX <= b.minX && b.maxX <= b'.maxX && b'.minY <= b.minY && b.maxY <= b'.maxY
  }

  /** Each side of b is the start box's, or a column from `left` on or a row from 0 on, short of the sheet's far edge. */
  predicate Fits(w: Scan, b0: Box, b: Box)
  {
    && (b.minX == b0.minX || (w.left <= b.minX && b.minX + w.bitmapX < w.sheet.width))
    && (b.maxX == b0.maxX || (w.left <= b.maxX && b.maxX + w.bitmapX < w.sheet.width))
    && (b.minY == b0.minY || (0 <= b.minY && b.minY + w.bitmapY < w.sheet.height))
    && (b.maxY == b0.maxY || (0 <= b.maxY && b.maxY + w.bitmapY < w.sheet.height))
  }

  /** What the scan of one row keeps: the box only grows and takes in every set cell of the row. */
  lemma {:induction false} RowBounds(w: Scan, corrected: bool, y: int, x: int, b: Box, b': Box)
    requires w.left <= x && ScanRow(w, corrected, y, x, b) == Ok(b')
    ensures Wider(b', b)
    ensures forall x' :: x <= x' && HitCell(w, corrected, x', y) ==> Inside(b', x', y)
    ensures (forall x' :: x <= x' ==> !HitCell(w, corrected, x', y)) ==> b' == b
    decreases w.right - x
  {
    if x < w.right {
      if OffSheet(corrected, x + w.bitmapX, w.sheet.width) {
        RowBounds(w, corrected, y, x + 1, b, b');
      } else {
        var next := if PixelAt(w, x, y).value > 0 then Mark(b, x, y) else b;
        RowBounds(w, corrected, y, x + 1, next, b');
        assert !HitCell(w, corrected, x, y) ==> next == b;
      }
    }
  }

  /** What the whole scan keeps: the box only grows and takes in every set cell it reads. */
  lemma {:induction false} RowsBounds(w: Scan, corrected: bool, y: int, b: Box, b': Box)
    requires 0 <= y && ScanRows(w, corrected, y, b) == Ok(b')
    ensures Wider(b', b)
    ensures forall x', y' :: y <= y' && Hit(w, corrected, x', y') ==> Inside(b', x', y')
    ensures (forall x', y' :: y <= y' ==> !Hit(w, corrected, x', y')) ==> b' == b
    decreases w.height - y
  {
    if y < w.height {
      if OffSheet(corrected, y + w.bitmapY, w.sheet.height) {
        RowsBounds(w, corrected, y + 1, b, b');
      } else {
        var mid := ScanRow(w, corrected, y, w.left, b).value;
        RowBounds(w, corrected, y, w.left, b, mid);
        RowsBounds(w, corrected, y + 1, mid, b');
        if forall x', y' :: y <= y' ==> !Hit(w, corrected, x', y') {
          forall x' | w.left <= x'
            ensures !HitCell(w, corrected, x', y)
          {
            assert !Hit(w, corrected, x', y);
          }
        }
      }
    }
  }

  /** `a * width + b` is a cell of a `width` × `height` sheet. */
  lemma {:induction false} CellIndex(a: int, b: int, width: int, height: int)
    requires 0 <= a < height && 0 <= b < width
    ensures 0 <= a * width + b < width * height
  {
    assert a * width + b < (a + 1) * width;
    assert (a + 1) * width <= height * width;
  }

  /** The corrected scan of a row on the sheet reads only inside the buffer, and its box keeps to the sheet. */
  lemma {:induction false} RowOk(w: Scan, y: int, x: int, b0: Box, b: Box)
    requires |w.sheet.pixels| == w.sheet.width * w.sheet.height
    requires 0 <= w.bitmapX && 0 <= w.left <= x && 0 <= y && 0 <= y + w.bitmapY < w.sheet.height
    requires Fits(w, b0, b)
    ensures ScanRow(w, true, y, x, b).Ok? && Fits(w, b0, ScanRow(w, true, y, x, b).value)
    decreases w.right - x
  {
    if x < w.right {
      if x + w.bitmapX < w.sheet.width {
        CellIndex(y + w.bitmapY, x + w.bitmapX, w.sheet.width, w.sheet.height);
      }
      var next := if x + w.bitmapX < w.sheet.width && PixelAt(w, x, y).value > 0 then Mark(b, x, y) else b;
      RowOk(w, y, x + 1, b0, next);
    }
  }

  /** The corrected scan never throws, and its box keeps to the sheet. */
  lemma {:induction false} RowsOk(w: Scan, y: int, b0: Box, b: Box)
    requires |w.sheet.pixels| == w.sheet.width * w.sheet.height
    requires 0 <= w.bitmapX && 0 <= w.bitmapY && 0 <= w.left && 0 <= y
    requires Fits(w, b0, b)
    ensures ScanRows(w, true, y, b).Ok? && Fits(w, b0, ScanRows(w, true, y, b).value)
    decreases w.height - y
  {
    if y < w.height {
      if y + w.bitmapY < w.sheet.height {
        RowOk(w, y, w.left, b0, b);
        RowsOk(w, y + 1, b0, ScanRow(w, true, y, w.left, b).value);
      } else {
        RowsOk(w, y + 1, b0, b);
      }
    }
  }

  /** The window lies on its sheet: its columns end at or before the sheet's right edge and its rows at or before the bottom. */
  predicate OnSheet(w: Scan)
  {
    w.right + w.bitmapX <= w.sheet.width && w.height + w.bitmapY <= w.sheet.height
  }

  /** On a window that lies on its sheet, the column loop as written and the corrected one agree. */
  lemma {:induction false} RowAgrees(w: Scan, y: int, x: int, b: Box)
    requires OnSheet(w)
    ensures ScanRow(w, false, y, x, b) == ScanRow(w, true, y, x, b)
    decreases w.right - x
  {
    if x < w.right && PixelAt(w, x, y).Ok? {
      RowAgrees(w, y, x + 1, if PixelAt(w, x, y).value > 0 then Mark(b, x, y) else b);
    }
  }

  /** On a window that lies on its sheet, the scan as written and the corrected one agree, and so do the cells they find set. */
  lemma {:induction false} RowsAgree(w: Scan, y: int, b: Box)
    requires OnSheet(w)
    ensures ScanRows(w, false, y, b) == ScanRows(w, true, y, b)
    ensures forall x, y' :: Hit(w, false, x, y') <==> Hit(w, true, x, y')
    decreases w.height - y
  {
    if y < w.height {
      RowAgrees(w, y, w.left, b);
      var r := ScanRow(w, true, y, w.left, b);
      if r.Ok? {
        RowsAgree(w, y + 1, r.value);
      }
    }
  }

  /**
   * A sheet of 2×2 pixels with only its lower-left one set, and a glyph
   * cell 3 wide and 1 high at its top-left corner: the scan as written
   * reads column 2, one past the right edge, from the next row and finds
   * the set pixel there, so the glyph gets a pixel that is not in its row;
   * the corrected scan skips the column and finds nothing.
   */
  lemma {:induction false} TrimAsWrittenReadsNextRow()
    ensures var w := Scan(Sheet(2, 2, [0, 0, 1, 0]), 0, 0, 0, 3, 1);
            && Hit(w, false, 2, 0) && !Hit(w, true, 2, 0)
            && ScanRows(w, false, 0, Box(2, 0, 0, 0)) == Ok(Box(2, 2, 0, 0))
            && ScanRows(w, true, 0, Box(2, 0, 0, 0)) == Ok(Box(2, 0, 0, 0))
  {
    var w := Scan(Sheet(2, 2, [0, 0, 1, 0]), 0, 0, 0, 3, 1);
    assert PixelAt(w, 2, 0) == Ok(1);
    assert ScanRow(w, false, 0, 0, Box(2, 0, 0, 0)) == Ok(Box(2, 2, 0, 0));
  }

  /** The scan as written throws on a glyph cell that reaches one row past the sheet's bottom. */
  lemma {:induction false} TrimAsWrittenThrowsBelow()
    ensures var w := Scan(Sheet(1, 1, [0]), 0, 0, 0, 1, 2);
            && ScanRows(w, false, 0, Box(0, 0, 1, 0)) == Err(IndexOutOfRange)
            && ScanRows(w, true, 0, Box(0, 0, 1, 0)) == Ok(Box(0, 0, 1, 0))
  {
  }

  /** The column loop of the trim, for one row on the sheet. */
  method ScanRowLoop(w: Scan, corrected: bool, y: int, b0: Box) returns (res: Result<Box>)
    ensures res == ScanRow(w, corrected, y, w.left, b0)
  {
    var b := b0;
    var x := w.left;
    while x < w.right
      invariant ScanRow(w, corrected, y, x, b) == ScanRow(w, corrected, y, w.left, b0)
      decreases w.right - x
    {
      var xOnSheet := x + w.bitmapX;
      if !OffSheet(corrected, xOnSheet, w.sheet.width) {
        var i := (y + w.bitmapY) * w.sheet.width + xOnSheet;
        if !(0 <= i < |w.sheet.pixels|) {
          return Err(IndexOutOfRange);
        }
        if w.sheet.pixels[i] > 0 {
          b := Mark(b, x, y);
        }
      }
      x := x + 1;
    }
    return Ok(b);
  }

  /** The trim loop: every row of the cell that is on the sheet, column by column. */
  method TrimScan(w: Scan, corrected: bool, b0: Box) returns (res: Result<Box>)
    ensures res == ScanRows(w, corrected, 0, b0)
  {
    var b := b0;
    var y := 0;
    while y < w.height
      invariant ScanRows(w, corrected, y, b) == ScanRows(w, corrected, 0, b0)
      decreases w.height - y
    {
      if !OffSheet(corrected, y + w.bitmapY, w.sheet.height) {
        var row := ScanRowLoop(w, corrected, y, b);
        if row.Err? {
          return Err(row.error);
        }
        b := row.value;
      }
      y := y + 1;
    }
    return Ok(b);
  }

  // ------------------------------------------------------------ the cut

  /** The box is empty: the scan found nothing, or the cell was empty to begin with. */
  predicate Empty(b: Box)
  {
    b.minX < 0 || b.minY < 0 || b.maxX < b.minX || b.maxY < b.minY
  }

  /** Every cell of the box can be read from the sheet. */
  predicate Readable(w: Scan, b: Box)
  {
    forall x, y :: b.minX <= x <= b.maxX && b.minY <= y <= b.maxY ==> PixelAt(w, x, y).Ok?
  }

  /** The pixel at (x, y), 0 where it cannot be read. */
  function PixelOr0(w: Scan, x: int, y: int): byte
  {
    match PixelAt(w, x, y)
    case Ok(p) => p
    case Err(_) => 0
  }

  /** The box cut out column by column, each column from its bottom row up. */
  function Cells(w: Scan, b: Box): seq<seq<byte>>
    requires !Empty(b)
  {
    seq(b.maxX - b.minX + 1, i => seq<byte>(b.maxY - b.minY + 1, j => PixelOr0(w, b.minX + i, b.maxY - j)))
  }

  /** The copy loop of the trim: the flipped box, or an `IndexOutOfRange` when a cell of it is off the buffer. */
  function Trimmed(w: Scan, b: Box): (res: Result<Ebdt.Pixels>)
    requires !Empty(b)
  {
    if Readable(w, b) then
      var g: Ebdt.Pixels := Ebdt.Grid(b.maxX - b.minX + 1, b.maxY - b.minY + 1, Cells(w, b));
      Ok(g)
    else Err(IndexOutOfRange)
  }

  /** Rows y0 up to y1 of the box are in the buffer, each pixel at its flipped place. */
  ghost predicate Copied(w: Scan, b: Box, a: array2<byte>, y0: int, y1: int)
    reads a
    requires !Empty(b) && a.Length0 == b.maxX - b.minX + 1 && a.Length1 == b.maxY - b.minY + 1
    requires b.minY <= y0 && y1 <= b.maxY + 1
  {
    forall x, y :: b.minX <= x <= b.maxX && y0 <= y < y1 ==>
      PixelAt(w, x, y).Ok? && a[x - b.minX, b.maxY - y] == PixelAt(w, x, y).value
  }

  /** One row of the copy loop. */
  method CopyRow(w: Scan, b: Box, a: array2<byte>, y: int) returns (ok: bool)
    requires !Empty(b) && a.Length0 == b.maxX - b.minX + 1 && a.Length1 == b.maxY - b.minY + 1
    requires b.minY <= y <= b.maxY
    modifies a
    ensures ok ==> Copied(w, b, a, y, y + 1)
    ensures !ok ==> !Readable(w, b)
    ensures forall i, j :: 0 <= i < a.Length0 && 0 <= j < a.Length1 && j != b.maxY - y ==> a[i, j] == old(a[i, j])
  {
    for x := b.minX to b.maxX + 1
      invariant forall x' :: b.minX <= x' < x ==> PixelAt(w, x', y).Ok? && a[x' - b.minX, b.maxY - y] == PixelAt(w, x', y).value
      invariant forall i, j :: 0 <= i < a.Length0 && 0 <= j < a.Length1 && j != b.maxY - y ==> a[i, j] == old(a[i, j])
    {
      var i := (y + w.bitmapY) * w.sheet.width + (x + w.bitmapX);
      if !(0 <= i < |w.sheet.pixels|) {
        assert !PixelAt(w, x, y).Ok?;
        return false;
      }
      a[x - b.minX, b.maxY - y] := w.sheet.pixels[i];
    }
    return true;
  }

  /** The copy loop: `trimmedBitmap[x - minX, maxY - y]` for every cell of the box. */
  method CopyTrimmed(w: Scan, b: Box) returns (res: Result<Ebdt.Pixels>)
    requires !Empty(b)
    ensures res == Trimmed(w, b)
  {
    var a := new byte[b.maxX - b.minX + 1, b.maxY - b.minY + 1]((_, _) => 0);
    for y := b.minY to b.maxY + 1
      invariant Copied(w, b, a, b.minY, y)
    {
      var ok := CopyRow(w, b, a, y);
      if !ok {
        return Err(IndexOutOfRange);
      }
    }
    var cells := seq(a.Length0, i requires 0 <= i < a.Length0 reads a => seq(a.Length1, j requires 0 <= j < a.Length1 reads a => a[i, j]));
    assert Readable(w, b);
    assert cells == Cells(w, b) by {
      forall i | 0 <= i < a.Length0
        ensures cells[i] == Cells(w, b)[i]
      {
        forall j | 0 <= j < a.Length1
          ensures cells[i][j] == Cells(w, b)[i][j]
        {
          var x, y := b.minX + i, b.maxY - j;
          assert a[x - b.minX, b.maxY - y] == PixelAt(w, x, y).value;
          assert cells[i][j] == a[i, j];
          assert Cells(w, b)[i][j] == PixelOr0(w, x, y);
        }
      }
    }
    var g: Ebdt.Pixels := Ebdt.Grid(a.Length0, a.Length1, cells);
    return Ok(g);
  }

  /** Cut out, the box holds every set cell the scan found, at its flipped place. */
  lemma {:induction false} TrimKeepsHits(w: Scan, corrected: bool, b0: Box, b: Box)
    requires ScanRows(w, corrected, 0, b0) == Ok(b) && !Empty(b) && Trimmed(w, b).Ok?
    ensures var px := Trimmed(w, b).value;
            forall x, y :: Hit(w, corrected, x, y) ==>
              && 0 <= x - b.minX < px.w && 0 <= b.maxY - y < px.h
              && px.cells[x - b.minX][b.maxY - y] == PixelAt(w, x, y).value > 0
  {
    RowsBounds(w, corrected, 0, b0, b);
    forall x, y | Hit(w, corrected, x, y)
      ensures Trimmed(w, b).value.cells[x - b.minX][b.maxY - y] == PixelAt(w, x, y).value
    {
      assert Inside(b, x, y);
      assert Cells(w, b)[x - b.minX][b.maxY - y] == PixelOr0(w, x, y);
    }
  }

  /**
   * A cell with at least one set pixel on the sheet, placed at or right of
   * and below the sheet's top-left corner: the corrected scan and the cut
   * both succeed, and the box is not empty.
   */
  lemma {:induction false} TrimSucceeds(w: Scan, b0: Box, hx: int, hy: int)
    requires |w.sheet.pixels| == w.sheet.width * w.sheet.height
    requires 0 <= w.bitmapX && 0 <= w.bitmapY && 0 <= w.left
    requires b0 == Box(b0.minX, 0, w.height - 1, 0) && w.right <= b0.minX + 1
    requires Hit(w, true, hx, hy)
    ensures ScanRows(w, true, 0, b0).Ok?
    ensures var b := ScanRows(w, true, 0, b0).value; !Empty(b) && Trimmed(w, b).Ok?
  {
    RowsOk(w, 0, b0, b0);
    var b := ScanRows(w, true, 0, b0).value;
    RowsBounds(w, true, 0, b0, b);
    assert Inside(b, hx, hy);
    assert 0 <= b.minX + w.bitmapX && b.maxX + w.bitmapX < w.sheet.width;
    assert 0 <= b.minY + w.bitmapY && b.maxY + w.bitmapY < w.sheet.height;
    forall x, y | b.minX <= x <= b.maxX && b.minY <= y <= b.maxY
      ensures PixelAt(w, x, y).Ok?
    {
      CellIndex(y + w.bitmapY, x + w.bitmapX, w.sheet.width, w.sheet.height);
    }
  }

  // ------------------------------------------------------------ one glyph

  /** A glyph's offset and width divided by the point scale and cut to 16 bits. */
  function ScaledSize(s: Settings, g: BuilderGlyph): GlyphSize
    requires s.pointScale != 0
  {
    var size := SizeOf(s, g);
    GlyphSize(Quot(size.offset, s.pointScale) % 0x1_0000, Quot(size.width, s.pointScale) % 0x1_0000)
  }

  /** The window the trim walks: the glyph's columns from its offset, no further than the cell's width, and every row of the cell. */
  function Window(bm: GlyphBitmap, size: GlyphSize): Scan
  {
    Scan(bm.sheet, bm.x, bm.y, size.offset, Min(size.offset + size.width, bm.width), bm.height)
  }

  /** The box the trim starts from. */
  function StartBox(bm: GlyphBitmap): Box
  {
    Box(bm.width - 1, 0, bm.height - 1, 0)
  }

  /** `singleBitmap`, one clear pixel. */
  const SingleBitmap: Ebdt.Pixels := Ebdt.Grid(1, 1, [[0]])

  /** What an empty cell gives: one clear pixel, one pixel above the baseline, the glyph's advance. */
  function Placeholder(advance: u16): Ebdt.Bitmap
  {
    Ebdt.Bitmap2(Ebdt.SmallMetrics(1, 1, 0, 1, advance % 0x100), SingleBitmap)
  }

  /** The small metrics of a cut-out box, each value cast to its byte field. */
  function TrimmedMetrics(s: Settings, b: Box, size: GlyphSize): Ebdt.SmallMetrics
    requires s.pointScale != 0
  {
    Ebdt.SmallMetrics(
      (b.maxY - b.minY + 1) % 0x100, (b.maxX - b.minX + 1) % 0x100,
      EblcValidate.SByte(b.minX - size.offset),
      EblcValidate.SByte(b.maxY + 1 - Quot(s.baseline, s.pointScale)),
      size.width % 0x100)
  }

  /**
   * `TryGetTrueTypeBitmap`: a glyph without a bitmap gives none; a sheet
   * whose buffer is not width × height is an `Argument` error; else the
   * cell is scanned and cut, or stands in for a placeholder when nothing
   * in it is set.  A point scale of 0 throws before anything else.
   */
  function TrueTypeBitmap(s: Settings, g: BuilderGlyph): Result<Option<Ebdt.Bitmap>>
  {
    if s.pointScale == 0 then Err(DivideByZero)
    else if g.bitmap.None? then Ok(None)
    else
      var bm, size := g.bitmap.value, ScaledSize(s, g);
      if |bm.sheet.pixels| != bm.sheet.width * bm.sheet.height then Err(Argument)
      else
        var w := Window(bm, size);
        match ScanRows(w, false, 0, StartBox(bm))
        case Err(e) => Err(e)
        case Ok(b) =>
          if Empty(b) then Ok(Some(Placeholder(size.width)))
          else
            match Trimmed(w, b)
            case Err(e) => Err(e)
            case Ok(pixels) => Ok(Some(Ebdt.Bitmap2(TrimmedMetrics(s, b, size), pixels)))
  }

  /** `TryGetTrueTypeBitmap`. */
  method TryGetTrueTypeBitmap(s: Settings, g: BuilderGlyph) returns (res: Result<Option<Ebdt.Bitmap>>)
    ensures res == TrueTypeBitmap(s, g)
  {
    var glyphSize := GetGlyphSize(s, g);
    if s.pointScale == 0 {
      return Err(DivideByZero);
    }
    var size := GlyphSize(Quot(glyphSize.offset, s.pointScale) % 0x1_0000, Quot(glyphSize.width, s.pointScale) % 0x1_0000);
    if g.bitmap.None? {
      return Ok(None);
    }
    var bitmap := g.bitmap.value;
    var sheet := bitmap.sheet;
    if |sheet.pixels| != sheet.width * sheet.height {
      return Err(Argument);
    }
    var w := Scan(sheet, bitmap.x, bitmap.y, size.offset, Min(size.offset + size.width, bitmap.width), bitmap.height);
    var box := TrimScan(w, false, Box(bitmap.width - 1, 0, bitmap.height - 1, 0));
    if box.Err? {
      return Err(box.error);
    }
    var b := box.value;
    if Empty(b) {
      return Ok(Some(Placeholder(size.width)));
    }
    var pixels := CopyTrimmed(w, b);
    if pixels.Err? {
      return Err(pixels.error);
    }
    return Ok(Some(Ebdt.Bitmap2(TrimmedMetrics(s, b, size), pixels.value)));
  }

  /**
   * A glyph whose bitmap cell lies wholly on its sheet, at or right of and
   * below the sheet's corner, and has a set pixel in the scanned window,
   * converts without error to a cut-out bitmap that holds every set pixel
   * of the window at its place, counted from the box's left column and,
   * flipped, from its bottom row.
   */
  lemma {:induction false} BitmapKeepsPixels(s: Settings, g: BuilderGlyph, hx: int, hy: int)
    requires s.pointScale != 0 && g.bitmap.Some?
    requires var bm := g.bitmap.value; |bm.sheet.pixels| == bm.sheet.width * bm.sheet.height && 0 <= bm.x && 0 <= bm.y
    requires var bm := g.bitmap.value; bm.x + bm.width <= bm.sheet.width && bm.y + bm.height <= bm.sheet.height
    requires Hit(Window(g.bitmap.value, ScaledSize(s, g)), false, hx, hy)
    ensures var bm := g.bitmap.value; var w := Window(bm, ScaledSize(s, g));
            && ScanRows(w, false, 0, StartBox(bm)).Ok?
            && var b := ScanRows(w, false, 0, StartBox(bm)).value;
            && TrueTypeBitmap(s, g).Ok? && TrueTypeBitmap(s, g).value.Some?
            && var r := TrueTypeBitmap(s, g).value.value;
            && r.Bitmap2? && r.small == TrimmedMetrics(s, b, ScaledSize(s, g))
            && forall x, y :: Hit(w, false, x, y) ==>
                 && 0 <= x - b.minX < r.pixels.w && 0 <= b.maxY - y < r.pixels.h
                 && r.pixels.cells[x - b.minX][b.maxY - y] == PixelAt(w, x, y).value > 0
  {
    var bm := g.bitmap.value;
    var w := Window(bm, ScaledSize(s, g));
    RowsAgree(w, 0, StartBox(bm));
    TrimSucceeds(w, StartBox(bm), hx, hy);
    TrimKeepsHits(w, false, StartBox(bm), ScanRows(w, false, 0, StartBox(bm)).value);
  }

  /**
   * A bitmap with no set pixel in the window gives the placeholder, unless
   * its cell is exactly 1×1: the start box is then not empty, and that one
   * cell is copied as it is.
   */
  lemma {:induction false} BlankCellPlaceholder(s: Settings, g: BuilderGlyph)
    requires s.pointScale != 0 && g.bitmap.Some?
    requires var bm := g.bitmap.value; |bm.sheet.pixels| == bm.sheet.width * bm.sheet.height && !(bm.width == 1 && bm.height == 1)
    requires forall x, y :: !Hit(Window(g.bitmap.value, ScaledSize(s, g)), false, x, y)
    ensures var bm := g.bitmap.value; ScanRows(Window(bm, ScaledSize(s, g)), false, 0, StartBox(bm)).Ok? ==>
              TrueTypeBitmap(s, g) == Ok(Some(Placeholder(ScaledSize(s, g).width)))
  {
    var bm := g.bitmap.value;
    var w := Window(bm, ScaledSize(s, g));
    var r := ScanRows(w, false, 0, StartBox(bm));
    if r.Ok? {
      RowsBounds(w, false, 0, StartBox(bm), r.value);
    }
  }

  /** The empty glyph's bitmap is a 0×0 cell: it always gives the placeholder with the glyph's advance. */
  lemma {:induction false} EmptyGlyphPlaceholder(s: Settings, width: u16)
    requires s.pointScale != 0
    ensures TrueTypeBitmap(s, EmptyGlyph()) == Ok(Some(Placeholder(ScaledSize(s, EmptyGlyph()).width)))
    ensures TrueTypeBitmap(s, EmptyGlyphOf(width)) == Ok(Some(Placeholder(ScaledSize(s, EmptyGlyphOf(width)).width)))
  {
  }

  // ------------------------------------------------------------ sections

  /** A run of glyphs with bitmaps at consecutive indices, from glyph `first` on: one section and its index subtable. */
  datatype Section = Section(first: nat, bitmaps: seq<Ebdt.Bitmap>)

  /** The index right after the run. */
  function End(r: Section): nat
  {
    r.first + |r.bitmaps|
  }

  /** The glyph at index i joins the last run when it directly follows it, and opens a new run otherwise. */
  function Add(rs: seq<Section>, i: nat, bm: Option<Ebdt.Bitmap>): seq<Section>
  {
    match bm
    case None => rs
    case Some(b) =>
      if |rs| > 0 && End(rs[|rs| - 1]) == i then rs[..|rs| - 1] + [rs[|rs| - 1].(bitmaps := rs[|rs| - 1].bitmaps + [b])]
      else rs + [Section(i, [b])]
  }

  /** The runs of the glyphs' bitmaps, in glyph order. */
  function Group(bms: seq<Option<Ebdt.Bitmap>>): seq<Section>
  {
    if |bms| == 0 then [] else Add(Group(bms[..|bms| - 1]), |bms| - 1, bms[|bms| - 1])
  }

  /** A non-empty stretch of bitmaps, each at its glyph's index. */
  predicate RunAt(bms: seq<Option<Ebdt.Bitmap>>, r: Section)
  {
    && 0 < |r.bitmaps| && End(r) <= |bms|
    && forall j :: 0 <= j < |r.bitmaps| ==> bms[r.first + j] == Some(r.bitmaps[j])
  }

  /** Every run is a stretch of the glyphs' bitmaps. */
  predicate Exact(bms: seq<Option<Ebdt.Bitmap>>, rs: seq<Section>)
  {
    forall k :: 0 <= k < |rs| ==> RunAt(bms, rs[k])
  }

  /** Runs come in glyph order with at least one glyph without a bitmap between two of them. */
  predicate Apart(rs: seq<Section>)
  {
    forall k :: 0 < k < |rs| ==> End(rs[k - 1]) < rs[k].first
  }

  /** Every glyph with a bitmap is in a run. */
  predicate Covered(bms: seq<Option<Ebdt.Bitmap>>, rs: seq<Section>)
  {
    forall i :: 0 <= i < |bms| && bms[i].Some? ==> exists k :: 0 <= k < |rs| && rs[k].first <= i < End(rs[k])
  }

  lemma {:induction false} RunStays(bms: seq<Option<Ebdt.Bitmap>>, r: Section, bm: Option<Ebdt.Bitmap>)
    requires RunAt(bms, r)
    ensures RunAt(bms + [bm], r)
  {
    assert forall i :: 0 <= i < |bms| ==> (bms + [bm])[i] == bms[i];
  }

  lemma {:induction false} RunJoins(bms: seq<Option<Ebdt.Bitmap>>, r: Section, b: Ebdt.Bitmap)
    requires RunAt(bms, r) && End(r) == |bms|
    ensures RunAt(bms + [Some(b)], r.(bitmaps := r.bitmaps + [b]))
  {
    var r' := r.(bitmaps := r.bitmaps + [b]);
    forall j | 0 <= j < |r'.bitmaps|
      ensures (bms + [Some(b)])[r'.first + j] == Some(r'.bitmaps[j])
    {
      if j < |r.bitmaps| {
        assert (bms + [Some(b)])[r.first + j] == bms[r.first + j];
      }
    }
  }

  lemma {:induction false} AddExact(bms: seq<Option<Ebdt.Bitmap>>, rs: seq<Section>, bm: Option<Ebdt.Bitmap>)
    requires Exact(bms, rs) && Apart(rs)
    ensures Exact(bms + [bm], Add(rs, |bms|, bm)) && Apart(Add(rs, |bms|, bm))
  {
    forall k | 0 <= k < |rs|
      ensures RunAt(bms + [bm], rs[k])
    {
      RunStays(bms, rs[k], bm);
    }
    if bm.Some? {
      if |rs| > 0 && End(rs[|rs| - 1]) == |bms| {
        RunJoins(bms, rs[|rs| - 1], bm.value);
      } else {
        assert RunAt(bms + [bm], Section(|bms|, [bm.value]));
      }
    }
  }

  lemma {:induction false} AddCovered(bms: seq<Option<Ebdt.Bitmap>>, rs: seq<Section>, bm: Option<Ebdt.Bitmap>)
    requires Covered(bms, rs)
    ensures Covered(bms + [bm], Add(rs, |bms|, bm))
  {
    var bms', rs' := bms + [bm], Add(rs, |bms|, bm);
    forall i | 0 <= i < |bms'| && bms'[i].Some?
      ensures exists k :: 0 <= k < |rs'| && rs'[k].first <= i < End(rs'[k])
    {
      if i == |bms| {
        assert rs'[|rs'| - 1].first <= i < End(rs'[|rs'| - 1]);
      } else {
        assert bms[i].Some?;
        var k :| 0 <= k < |rs| && rs[k].first <= i < End(rs[k]);
        assert rs'[k].first == rs[k].first && End(rs[k]) <= End(rs'[k]);
      }
    }
  }

  /**
   * The runs are exactly the stretches of consecutive glyphs with bitmaps:
   * every run is non-empty and holds the bitmaps of its glyphs in order,
   * runs are apart and in order, and no glyph's bitmap is left out.
   */
  lemma {:induction false} GroupMeans(bms: seq<Option<Ebdt.Bitmap>>)
    ensures Exact(bms, Group(bms)) && Apart(Group(bms)) && Covered(bms, Group(bms))
  {
    if |bms| > 0 {
      var front := bms[..|bms| - 1];
      GroupMeans(front);
      assert front + [bms[|bms| - 1]] == bms;
      AddExact(front, Group(front), bms[|bms| - 1]);
      AddCovered(front, Group(front), bms[|bms| - 1]);
    }
  }

  // ------------------------------------------------------------ the tables

  /** `TtfTableEblcSbitLineMetricsData` as the builder fills it: caret slope 1/0, the rest 0. */
  function Line(ascender: int, descender: int, widthMax: int): Eblc.LineMetrics
  {
    Eblc.LineMetrics(EblcValidate.SByte(ascender), EblcValidate.SByte(descender), widthMax % 0x100, 1, 0, 0, 0, 0, 0, 0, 0, 0)
  }

  /** The one bitmap size: line metrics and ppem from the builder's metrics divided by the point scale, 1 bit deep, horizontal metrics. */
  function StrikeData(s: Settings): Eblc.SizeData
    requires s.pointScale != 0
  {
    var ps := s.pointScale;
    Eblc.SizeData(
      0, 0, 0, 0,
      Line(Quot(s.metricHeight as int - s.baseline as int, ps), Quot(-(s.baseline as int), ps), Quot(s.metricWidth, ps)),
      Line(Quot(s.metricWidth / 2, ps), Quot(s.metricWidth as int / 2 - s.metricWidth as int, ps), Quot(s.metricWidth, ps)),
      0, 0, Quot(s.metricHeight, ps) % 0x100, Quot(s.metricHeight, ps) % 0x100, 1, 1)
  }

  /** The index subtable of a run: format 1, its first and last glyph index cut to 16 bits, pointing at section k. */
  function SubtableOf(r: Section, k: nat): Eblc.IndexSubtable
  {
    Eblc.IndexSubtable(
      Eblc.Lookup(r.first % 0x1_0000, (End(r) - 1) % 0x1_0000, 0),
      Eblc.SubtableHeader(0, 0, 0), Eblc.Offsets32([]), Some(k))
  }

  /** The index subtables of the runs, in order. */
  function Subtables(rs: seq<Section>): (ts: seq<Eblc.IndexSubtable>)
    ensures |ts| == |rs| && forall k :: 0 <= k < |rs| ==> ts[k] == SubtableOf(rs[k], k)
  {
    seq(|rs|, k requires 0 <= k < |rs| => SubtableOf(rs[k], k))
  }

  /** The `EBDT` sections of the runs, in order. */
  function SectionsOf(rs: seq<Section>): (ss: seq<seq<Ebdt.Bitmap>>)
    ensures |ss| == |rs| && forall k :: 0 <= k < |rs| ==> ss[k] == rs[k].bitmaps
  {
    seq(|rs|, k requires 0 <= k < |rs| => rs[k].bitmaps)
  }

  /** The `EBLC` and `EBDT` tables of the runs; the size is added only when there is a run. */
  function Tables(s: Settings, rs: seq<Section>): (Eblc.EblcTable, Ebdt.EbdtTable)
    requires s.pointScale != 0
  {
    (Eblc.EblcTable(Eblc.EblcHeader(0, 0, 0), if |rs| == 0 then [] else [Eblc.Strike(StrikeData(s), Subtables(rs))]),
     Ebdt.EbdtTable(Ebdt.EbdtHeader(0, 0), SectionsOf(rs)))
  }

  /** The turns of the glyph loop, one conversion each. */
  function BitmapReads(s: Settings, glyphs: seq<BuilderGlyph>): (f: nat --> Result<Option<Ebdt.Bitmap>>)
    ensures forall i :: 0 <= i < |glyphs| ==> f.requires(i) && f(i) == TrueTypeBitmap(s, glyphs[i])
  {
    (i: nat) requires i < |glyphs| => TrueTypeBitmap(s, glyphs[i])
  }

  /** `BuildEblcAndEbdt` over the glyphs in glyph order; the first conversion that throws ends it. */
  function EblcAndEbdt(s: Settings, glyphs: seq<BuilderGlyph>): Result<(Eblc.EblcTable, Ebdt.EbdtTable)>
  {
    if s.pointScale == 0 then Err(DivideByZero)
    else
      match Gather(BitmapReads(s, glyphs), |glyphs|)
      case Err(e) => Err(e)
      case Ok(bms) => Ok(Tables(s, Group(bms)))
  }

  /** The state `ProcessGlyphOrdered` keeps: the runs closed so far, the open one and the index of the last glyph with a bitmap. */
  datatype Progress = Progress(closed: seq<Section>, current: Option<Section>, prevIndex: int)

  /** The closed runs and the open one. */
  function Runs(p: Progress): seq<Section>
  {
    p.closed + if p.current.Some? then [p.current.value] else []
  }

  /** The runs so far are those of the glyphs so far, and `prevIndex` is the open run's last glyph (-1 before any). */
  predicate Tracks(p: Progress, bms: seq<Option<Ebdt.Bitmap>>)
  {
    && Runs(p) == Group(bms)
    && (p.current.None? ==> p.closed == [] && p.prevIndex == -1)
    && (p.current.Some? ==> p.prevIndex == End(p.current.value) - 1)
  }

  /** `ProcessGlyphOrdered` for glyph i: a bitmap opens a new run unless the glyph directly follows the open run's last. */
  function Process(p: Progress, i: nat, bm: Option<Ebdt.Bitmap>): Progress
  {
    match bm
    case None => p
    case Some(b) =>
      if p.current.None? || p.prevIndex + 1 != i then
        Progress(Runs(p), Some(Section(i, [b])), i)
      else
        Progress(p.closed, Some(p.current.value.(bitmaps := p.current.value.bitmaps + [b])), i)
  }

  lemma {:induction false} ProcessTracks(p: Progress, bms: seq<Option<Ebdt.Bitmap>>, bm: Option<Ebdt.Bitmap>)
    requires Tracks(p, bms)
    ensures Tracks(Process(p, |bms|, bm), bms + [bm])
  {
    assert (bms + [bm])[..|bms|] == bms;
  }

  /** `BuildEblcAndEbdt`. */
  method BuildEblcAndEbdt(s: Settings, glyphs: seq<BuilderGlyph>) returns (res: Result<(Eblc.EblcTable, Ebdt.EbdtTable)>)
    ensures res == EblcAndEbdt(s, glyphs)
  {
    if s.pointScale == 0 {
      return Err(DivideByZero);
    }
    var p := Progress([], None, -1);
    ghost var bms: seq<Option<Ebdt.Bitmap>> := [];
    for glyphIndex := 0 to |glyphs|
      invariant Gather(BitmapReads(s, glyphs), glyphIndex) == Ok(bms)
      invariant Tracks(p, bms)
    {
      var bitmap := TryGetTrueTypeBitmap(s, glyphs[glyphIndex]);
      GatherStep(BitmapReads(s, glyphs), glyphIndex, |glyphs|, bms, bitmap);
      if bitmap.Err? {
        return Err(bitmap.error);
      }
      ProcessTracks(p, bms, bitmap.value);
      p := Process(p, glyphIndex, bitmap.value);
      bms := bms + [bitmap.value];
    }
    return Ok(Tables(s, Runs(p)));
  }

  /**
   * Every index subtable names the first and last glyph of its section, so
   * its glyph count is the section's length, and points at that section;
   * the one bitmap size is there exactly when a section is.
   */
  predicate Counted(eblc: Eblc.EblcTable, ebdt: Ebdt.EbdtTable)
  {
    && |eblc.sizes| <= 1
    && (|eblc.sizes| == 0 <==> |ebdt.sections| == 0)
    && forall e :: e in eblc.sizes ==>
         && |e.subtables| == |ebdt.sections|
         && forall k :: 0 <= k < |e.subtables| ==>
              && Eblc.NumGlyphs(e.subtables[k].lookup) == |ebdt.sections[k]| > 0
              && e.subtables[k].section == Some(k)
  }

  /** A run below glyph 65536 keeps its first and last index through the casts. */
  lemma {:induction false} LookupOf(r: Section, k: nat)
    requires 0 < |r.bitmaps| && End(r) <= 0x1_0000
    ensures Eblc.NumGlyphs(SubtableOf(r, k).lookup) == |r.bitmaps|
  {
    assert r.first % 0x1_0000 == r.first;
    assert (End(r) - 1) % 0x1_0000 == End(r) - 1;
  }

  lemma {:induction false} TablesCounted(s: Settings, bms: seq<Option<Ebdt.Bitmap>>, rs: seq<Section>)
    requires s.pointScale != 0 && |bms| <= 0x1_0000 && Exact(bms, rs)
    ensures Counted(Tables(s, rs).0, Tables(s, rs).1)
  {
    var ts := Subtables(rs);
    forall k | 0 <= k < |rs|
      ensures Eblc.NumGlyphs(ts[k].lookup) == |rs[k].bitmaps| > 0
    {
      assert RunAt(bms, rs[k]);
      LookupOf(rs[k], k);
    }
  }

  /** With at most 65536 glyphs no glyph index is cut by the casts, and the tables are `Counted`. */
  lemma {:induction false} SubtablesCount(s: Settings, glyphs: seq<BuilderGlyph>)
    requires |glyphs| <= 0x1_0000 && EblcAndEbdt(s, glyphs).Ok?
    ensures Counted(EblcAndEbdt(s, glyphs).value.0, EblcAndEbdt(s, glyphs).value.1)
  {
    var bms := Gather(BitmapReads(s, glyphs), |glyphs|).value;
    GroupMeans(bms);
    TablesCounted(s, bms, Group(bms));
  }
}
