/**
 * `Validate` of the `EBLC` table, which runs after the `EBDT` table's: for
 * every size and every index subtable of it, `ValidateWithEbdt` points the
 * subtable's header at its bitmap section in `EBDT` and `ValidateGlyphs`
 * rebuilds the glyph offsets of index format 1; then `ValidateData` folds
 * the metrics of the size's bitmaps into its line metrics and glyph range.
 *
 * The objects `Validate` updates in place are values here: each step
 * returns the updated subtable or size, or the exception it throws.
 */
module EblcValidate {
  import opened Wrappers
  import opened Bytes
  import opened Eblc
  import Ebdt
  import EbdtRead
  import EbdtRoundTrip
  import EblcRead

  const NotInEbdt := "this section is not included in EBDT table."
  const NoHorizontal := "No horizontal glyphs"
  const NoVertical := "No vertical glyphs"
  const NoGlyph := "No glyph in a size"

  // ------------------------------------------------------------ ValidateWithEbdt

  /** Where `EBDT`'s `Serialize` puts section k: past the 4-byte header and the bitmaps of the sections before it. */
  function SectionStart(e: Ebdt.EbdtTable, k: nat): nat
    requires k <= |e.sections|
  {
    4 + Ebdt.SizeOf(Ebdt.Flat(e.sections[..k]))
  }

  lemma {:induction false} SectionStartNext(e: Ebdt.EbdtTable, k: nat)
    requires k < |e.sections|
    ensures SectionStart(e, k + 1) == SectionStart(e, k) + Ebdt.SizeOf(e.sections[k])
  {
    Ebdt.SectionNext(e.sections, k);
    Ebdt.SizeOfConcat(Ebdt.Flat(e.sections[..k]), e.sections[k]);
  }

  /**
   * The image format of a section: the bitmap class it holds.  A section
   * here is a list of bitmaps and an empty one names no class, so the
   * header keeps the format it had.
   */
  function SectionFormat(bs: seq<Ebdt.Bitmap>, previous: u16): (f: u16)
    ensures bs != [] ==> f == Ebdt.Format(bs[0])
  {
    if bs == [] then previous else Ebdt.Format(bs[0])
  }

  /**
   * `ValidateWithEbdt`: the subtable's section must be one of `EBDT`'s
   * sections and hold one bitmap per glyph of the subtable's range; the
   * header then names the subtable's index format, the section's image
   * format and the offset of the section in `EBDT`.
   */
  function WithEbdt(s: IndexSubtable, e: Ebdt.EbdtTable): (res: Result<IndexSubtable>)
    ensures res.Ok? <==>
      s.section.Some? && s.section.value < |e.sections| && NumGlyphs(s.lookup) == |e.sections[s.section.value]|
    ensures s.section.None? ==> res == Err(NullReference)
    ensures s.section.Some? && s.section.value >= |e.sections| ==> res == Err(InvalidOperation(NotInEbdt))
    ensures s.section.Some? && s.section.value < |e.sections| && NumGlyphs(s.lookup) != |e.sections[s.section.value]| ==>
      res == Err(IndexOutOfRange)
  {
    if s.section.None? then Err(NullReference)
    else if s.section.value >= |e.sections| then Err(InvalidOperation(NotInEbdt))
    else
      var k := s.section.value;
      if NumGlyphs(s.lookup) != |e.sections[k]| then Err(IndexOutOfRange)
      else
        Ok(s.(header := SubtableHeader(IndexFormat(s.body), SectionFormat(e.sections[k], s.header.imageFormat),
                                       Cast32(SectionStart(e, k)))))
  }

  /** The search of `ValidateWithEbdt`: the sections before the subtable's, summing their sizes. */
  method ValidateWithEbdt(s: IndexSubtable, e: Ebdt.EbdtTable) returns (res: Result<IndexSubtable>)
    ensures res == WithEbdt(s, e)
  {
    if s.section.None? {
      return Err(NullReference);
    }
    var k := s.section.value;
    if k >= |e.sections| {
      return Err(InvalidOperation(NotInEbdt));
    }
    if NumGlyphs(s.lookup) != |e.sections[k]| {
      return Err(IndexOutOfRange);
    }
    var format := SectionFormat(e.sections[k], s.header.imageFormat);
    var offset := 4;
    var i := 0;
    while i < k
      invariant i <= k && offset == SectionStart(e, i)
    {
      SectionStartNext(e, i);
      offset := offset + Ebdt.SizeOf(e.sections[i]);
      i := i + 1;
    }
    return Ok(s.(header := SubtableHeader(IndexFormat(s.body), format, Cast32(offset))));
  }

  /**
   * What `ValidateWithEbdt` writes on success: only the header changes;
   * it names the body's index format, and the offset is where `EBDT`'s
   * `Serialize` puts the section, as a `uint`.
   */
  lemma {:induction false} WithEbdtHeader(s: IndexSubtable, e: Ebdt.EbdtTable)
    requires WithEbdt(s, e).Ok?
    ensures var v := WithEbdt(s, e).value;
      && v.lookup == s.lookup && v.body == s.body && v.section == s.section
      && v.header.indexFormat == IndexFormat(s.body)
      && v.header.imageDataOffset == Cast32(SectionStart(e, s.section.value))
      && (e.sections[s.section.value] != [] ==> v.header.imageFormat == Ebdt.Format(e.sections[s.section.value][0]))
  {
  }

  // ------------------------------------------------------------ ValidateGlyphs

  /** `(a + b) % 2^32`, the `uint` sum. */
  function Add32u(a: u32, b: nat): (r: u32)
    ensures a + b < 0x1_0000_0000 ==> r == a + b
  {
    (a + b) % 0x1_0000_0000
  }

  lemma {:induction false} ModShift(x: int, q: nat)
    ensures (x + q * 0x1_0000_0000) % 0x1_0000_0000 == x % 0x1_0000_0000
    decreases q
  {
    if q > 0 {
      ModShift(x, q - 1);
      assert x + q * 0x1_0000_0000 == (x + (q - 1) * 0x1_0000_0000) + 0x1_0000_0000;
    }
  }

  /** Adding to a `uint` that wrapped around is wrapping the whole sum. */
  lemma {:induction false} Add32Cast(a: nat, b: nat)
    ensures Add32u(Cast32(a), b) == Cast32(a + b)
  {
    var q := a / 0x1_0000_0000;
    assert a == Cast32(a) + q * 0x1_0000_0000;
    ModShift(Cast32(a) + b, q);
  }

  /** The offsets `ValidateGlyphs` writes for the section bs: running `uint` sums of the bitmaps' `GetSize`, from 0. */
  function GlyphOffsets(bs: seq<Ebdt.Bitmap>): (o: seq<u32>)
    ensures |o| == |bs| + 1
  {
    seq(|bs| + 1, i requires 0 <= i <= |bs| => Cast32(Ebdt.SizeOf(bs[..i])))
  }

  /**
   * Offset i + 1 is offset i plus the size of bitmap i, both as `uint`s;
   * the first is 0; below 2^32 every offset is the size of the bitmaps
   * before it.
   */
  lemma {:induction false} GlyphOffsetsStep(bs: seq<Ebdt.Bitmap>, i: nat)
    requires i < |bs|
    ensures GlyphOffsets(bs)[0] == 0
    ensures GlyphOffsets(bs)[i + 1] == Add32u(GlyphOffsets(bs)[i], Ebdt.BitmapSize(bs[i]))
  {
    assert bs[..0] == [];
    EbdtRoundTrip.SizePrefix(bs, i);
    Add32Cast(Ebdt.SizeOf(bs[..i]), Ebdt.BitmapSize(bs[i]));
  }

  lemma {:induction false} GlyphOffsetsExact(bs: seq<Ebdt.Bitmap>)
    requires Ebdt.SizeOf(bs) < 0x1_0000_0000
    ensures forall i :: 0 <= i <= |bs| ==> GlyphOffsets(bs)[i] as int == Ebdt.SizeOf(bs[..i])
  {
    forall i | 0 <= i <= |bs|
      ensures GlyphOffsets(bs)[i] as int == Ebdt.SizeOf(bs[..i])
    {
      if i < |bs| {
        EbdtRoundTrip.SizePrefix(bs, i);
      } else {
        assert bs[..i] == bs;
      }
    }
  }

  /** `ValidateGlyphs`: index format 1 takes the offsets of its section's bitmaps; formats 2 and 3 keep theirs. */
  function Glyphs(s: IndexSubtable, bs: seq<Ebdt.Bitmap>): (v: IndexSubtable)
    ensures v.lookup == s.lookup && v.header == s.header && v.section == s.section
    ensures v.body.Offsets32? <==> s.body.Offsets32?
    ensures v.body.Offsets32? ==> v.body.offsets32 == GlyphOffsets(bs)
    ensures !s.body.Offsets32? ==> v == s
  {
    if s.body.Offsets32? then s.(body := Offsets32(GlyphOffsets(bs))) else s
  }

  /** The loop of index format 1's `ValidateGlyphs`: a `uint` cursor that each bitmap's size moves on. */
  method ValidateGlyphs(s: IndexSubtable, bs: seq<Ebdt.Bitmap>) returns (v: IndexSubtable)
    ensures v == Glyphs(s, bs)
  {
    if !s.body.Offsets32? {
      return s;
    }
    var offsets: seq<u32> := [];
    var cursor: u32 := 0;
    for i := 0 to |bs|
      invariant offsets == GlyphOffsets(bs)[..i] && cursor == GlyphOffsets(bs)[i]
    {
      GlyphOffsetsStep(bs, i);
      offsets := offsets + [cursor];
      cursor := Add32u(cursor, Ebdt.BitmapSize(bs[i]));
    }
    if bs == [] {
      assert cursor == 0 by { assert bs[..0] == []; }
    }
    offsets := offsets + [cursor];
    assert offsets == GlyphOffsets(bs);
    return s.(body := Offsets32(offsets));
  }

  // ------------------------------------------------------------ the two steps, and EBDT's reader

  /** The bitmaps of the subtable's section. */
  function SectionOf(s: IndexSubtable, sections: seq<seq<Ebdt.Bitmap>>): seq<Ebdt.Bitmap>
  {
    if s.section.Some? && s.section.value < |sections| then sections[s.section.value] else []
  }

  /** The two per-subtable steps of `Validate`. */
  function CheckedSubtable(s: IndexSubtable, e: Ebdt.EbdtTable): (res: Result<IndexSubtable>)
  {
    var v :- WithEbdt(s, e);
    Ok(Glyphs(v, SectionOf(v, e.sections)))
  }

  /**
   * After both steps a format-1 subtable locates its section as `EBDT`'s
   * `Serialize` lays it out and its `Deserialize` reads it: the section's
   * offset and format, one glyph per bitmap and the offset of every
   * bitmap — for a section of one variable-metrics format whose metrics
   * match its pixels, in a table below 2^31 bytes.
   */
  lemma {:induction false} CheckedDescribes(s: IndexSubtable, e: Ebdt.EbdtTable, v: IndexSubtable)
    requires CheckedSubtable(s, e) == Ok(v) && s.body.Offsets32?
    requires Ebdt.GetSize(e) < 0x8000_0000
    requires SectionOf(s, e.sections) != []
    requires forall i :: 0 <= i < |SectionOf(s, e.sections)| ==>
      Ebdt.Format(SectionOf(s, e.sections)[i]) == Ebdt.Format(SectionOf(s, e.sections)[0]) && EbdtRoundTrip.Consistent(SectionOf(s, e.sections)[i])
    requires Ebdt.VariableFormat(Ebdt.Format(SectionOf(s, e.sections)[0]))
    ensures s.section.Some? && s.section.value < |e.sections| && v.section == s.section
    ensures EbdtRoundTrip.VariableDescribes(EblcRead.LocatorOf(v), SectionStart(e, s.section.value), e.sections[s.section.value])
  {
    var k := s.section.value;
    var bs := e.sections[k];
    WithEbdtHeader(s, e);
    SectionBelow(e, k);
    GlyphOffsetsExact(bs);
  }

  /** A section, and where it starts, lie within the table's size. */
  lemma {:induction false} SectionBelow(e: Ebdt.EbdtTable, k: nat)
    requires k < |e.sections|
    ensures SectionStart(e, k) + Ebdt.SizeOf(e.sections[k]) <= Ebdt.GetSize(e)
  {
    SectionStartNext(e, k);
    Ebdt.SectionNext(e.sections, k);
  }

  // ------------------------------------------------------------ ValidateData: one glyph

  /** `(sbyte)x`, unchecked: the low 8 bits of x read as a signed byte. */
  function SByte(x: int): (r: i8)
    ensures -0x80 <= x < 0x80 ==> r == x
    ensures (x - r) % 0x100 == 0
  {
    var u := x % 0x100;
    if u < 0x80 then u else u - 0x100
  }

  /** The `HorizontalMetrics` (bit 0) and `VerticalMetrics` (bit 1) flags of a size. */
  predicate Horizontal(flags: byte) { flags % 2 == 1 }
  predicate Vertical(flags: byte) { flags / 2 % 2 == 1 }

  /** The four side bearings of a glyph that a line-metrics record gathers. */
  datatype Extent = Extent(originSB: i8, advanceSB: i8, beforeBL: i8, afterBL: i8)

  /** What one bitmap contributes to its size: a width for `widthMax`, a horizontal and a vertical extent. */
  datatype Sample = Sample(width: Option<byte>, hori: Option<Extent>, vert: Option<Extent>)

  /** Small metrics: bearings from the origin, the advance past the glyph, the top above and the bottom below the baseline. */
  function SmallHori(m: Ebdt.SmallMetrics): Extent
  {
    Extent(m.bearingX, SByte(m.advance - (m.bearingX + m.width)), m.bearingY, SByte(m.bearingY - m.height))
  }

  /** The horizontal extent of big metrics as `ValidateData` computes it: above and below the baseline from `horiBearingX`. */
  function BigHoriAsWritten(m: Ebdt.BigMetrics): Extent
  {
    Extent(m.horiBearingX, SByte(m.horiAdvance - (m.horiBearingX + m.width)), m.horiBearingX, SByte(m.horiBearingX - m.height))
  }

  /** The horizontal extent of big metrics as evidently intended: above and below the baseline from `horiBearingY`. */
  function BigHori(m: Ebdt.BigMetrics): Extent
  {
    Extent(m.horiBearingX, SByte(m.horiAdvance - (m.horiBearingX + m.width)), m.horiBearingY, SByte(m.horiBearingY - m.height))
  }

  /** The vertical extent of big metrics. */
  function BigVert(m: Ebdt.BigMetrics): Extent
  {
    Extent(m.vertBearingY, SByte(m.vertAdvance - (m.vertBearingY + m.height)), m.vertBearingX, SByte(m.vertBearingX - m.width))
  }

  /** The horizontal half of big metrics: the small metrics of the same glyph set horizontally. */
  function HoriPart(m: Ebdt.BigMetrics): Ebdt.SmallMetrics
  {
    Ebdt.SmallMetrics(m.height, m.width, m.horiBearingX, m.horiBearingY, m.horiAdvance)
  }

  /** A big-metrics glyph has the horizontal extent of its horizontal half. */
  lemma BigHoriIsSmall(m: Ebdt.BigMetrics)
    ensures BigHori(m) == SmallHori(HoriPart(m))
  {
  }

  /** A glyph 5 rows high whose top is 4 rows above the baseline: as written, its top is put at the baseline. */
  const TallGlyph := Ebdt.BigMetrics(5, 3, 0, 4, 4, 0, 0, 6)

  /** The extent as written is the intended one exactly for the glyphs whose two horizontal bearings coincide. */
  lemma BigHoriAsWrittenExactly(m: Ebdt.BigMetrics)
    ensures BigHoriAsWritten(m) == BigHori(m) <==> m.horiBearingX == m.horiBearingY
    ensures BigHoriAsWritten(m).originSB == BigHori(m).originSB && BigHoriAsWritten(m).advanceSB == BigHori(m).advanceSB
  {
    if BigHoriAsWritten(m) == BigHori(m) {
      assert BigHoriAsWritten(m).beforeBL == BigHori(m).beforeBL;
    }
  }

  lemma BigHoriAsWrittenDiffers()
    ensures BigHoriAsWritten(TallGlyph).beforeBL == 0 && BigHoriAsWritten(TallGlyph).afterBL == -5
    ensures SmallHori(HoriPart(TallGlyph)).beforeBL == 4 && SmallHori(HoriPart(TallGlyph)).afterBL == -1
    ensures BigHoriAsWritten(TallGlyph) != SmallHori(HoriPart(TallGlyph))
  {
  }

  /** What a bitmap of a size with these flags contributes; small metrics count (width included) only horizontally. */
  function SampleOf(b: Ebdt.Bitmap, flags: byte): (s: Sample)
    ensures s.vert.Some? ==> (b.Bitmap6? || b.Bitmap7?) && Vertical(flags) && s.vert.value == BigVert(b.big)
    ensures s.hori.Some? ==> Horizontal(flags) && !b.Bitmap5?
    ensures (b.Bitmap1? || b.Bitmap2?) ==>
      s == if Horizontal(flags) then Sample(Some(b.small.width), Some(SmallHori(b.small)), None) else Sample(None, None, None)
    ensures (b.Bitmap6? || b.Bitmap7?) ==> s.width == Some(b.big.width) && (Horizontal(flags) <==> s.hori == Some(BigHoriAsWritten(b.big)))
    ensures b.Bitmap5? ==> s == Sample(None, None, None)
  {
    match b
    case Bitmap1(m, _) => SmallSample(m, flags)
    case Bitmap2(m, _) => SmallSample(m, flags)
    case Bitmap5(_) => Sample(None, None, None)
    case Bitmap6(m, _) => BigSample(m, flags)
    case Bitmap7(m, _) => BigSample(m, flags)
  }

  function SmallSample(m: Ebdt.SmallMetrics, flags: byte): Sample
  {
    if Horizontal(flags) then Sample(Some(m.width), Some(SmallHori(m)), None) else Sample(None, None, None)
  }

  function BigSample(m: Ebdt.BigMetrics, flags: byte): Sample
  {
    Sample(Some(m.width), if Horizontal(flags) then Some(BigHoriAsWritten(m)) else None, if Vertical(flags) then Some(BigVert(m)) else None)
  }

  // ------------------------------------------------------------ ValidateData: the fold

  /** The locals of `ValidateData`'s loop. */
  datatype Acc = Acc(widthMax: byte, anyH: bool, anyV: bool, h: Extent, v: Extent)

  /** `sbyte.MaxValue` for the three least, `sbyte.MinValue` for the greatest. */
  const Unseen := Extent(0x7F, 0x7F, -0x80, 0x7F)
  const Init := Acc(0, false, false, Unseen, Unseen)

  function Least(a: i8, b: i8): i8 { if a > b then b else a }
  function Greatest(a: i8, b: i8): i8 { if a < b then b else a }

  function Merge(e: Extent, x: Extent): Extent
  {
    Extent(Least(e.originSB, x.originSB), Least(e.advanceSB, x.advanceSB), Greatest(e.beforeBL, x.beforeBL), Least(e.afterBL, x.afterBL))
  }

  /** One bitmap's turn of the loop. */
  function Step(a: Acc, s: Sample): Acc
  {
    Acc(if s.width.Some? && a.widthMax < s.width.value then s.width.value else a.widthMax,
        a.anyH || s.hori.Some?, a.anyV || s.vert.Some?,
        if s.hori.Some? then Merge(a.h, s.hori.value) else a.h,
        if s.vert.Some? then Merge(a.v, s.vert.value) else a.v)
  }

  /** The locals after the loop has seen the samples ss in turn. */
  function Fold(ss: seq<Sample>): Acc
    decreases |ss|
  {
    if ss == [] then Init else Step(Fold(ss[..|ss| - 1]), ss[|ss| - 1])
  }

  lemma FoldSnoc(ss: seq<Sample>, s: Sample)
    ensures Fold(ss + [s]) == Step(Fold(ss), s)
  {
    assert (ss + [s])[..|ss|] == ss;
  }

  /** The samples of a section, in order. */
  function BitmapSamples(bs: seq<Ebdt.Bitmap>, flags: byte): (ss: seq<Sample>)
    ensures |ss| == |bs| && forall i :: 0 <= i < |bs| ==> ss[i] == SampleOf(bs[i], flags)
  {
    seq(|bs|, i requires 0 <= i < |bs| => SampleOf(bs[i], flags))
  }

  /** The samples of the subtables' sections, subtable by subtable. */
  function Samples(subs: seq<IndexSubtable>, sections: seq<seq<Ebdt.Bitmap>>, flags: byte): seq<Sample>
    decreases |subs|
  {
    if subs == [] then []
    else Samples(subs[..|subs| - 1], sections, flags) + BitmapSamples(SectionOf(subs[|subs| - 1], sections), flags)
  }

  lemma SamplesNext(subs: seq<IndexSubtable>, sections: seq<seq<Ebdt.Bitmap>>, flags: byte, i: nat)
    requires i < |subs|
    ensures Samples(subs[..i + 1], sections, flags) == Samples(subs[..i], sections, flags) + BitmapSamples(SectionOf(subs[i], sections), flags)
  {
    assert subs[..i + 1][..i] == subs[..i];
  }

  /** The samples are exactly those of the bitmaps in the subtables' sections. */
  lemma {:induction false} SamplesMembers(subs: seq<IndexSubtable>, sections: seq<seq<Ebdt.Bitmap>>, flags: byte, x: Sample)
    ensures x in Samples(subs, sections, flags) <==>
      exists j, i :: 0 <= j < |subs| && 0 <= i < |SectionOf(subs[j], sections)| && x == SampleOf(SectionOf(subs[j], sections)[i], flags)
    decreases |subs|
  {
    if subs != [] {
      var n := |subs| - 1;
      var pre := subs[..n];
      SamplesMembers(pre, sections, flags, x);
      assert forall j :: 0 <= j < n ==> pre[j] == subs[j];
      var last := BitmapSamples(SectionOf(subs[n], sections), flags);
      if x in last {
        var i :| 0 <= i < |last| && last[i] == x;
        assert x == SampleOf(SectionOf(subs[n], sections)[i], flags);
      }
      if exists j, i :: 0 <= j < |subs| && 0 <= i < |SectionOf(subs[j], sections)| && x == SampleOf(SectionOf(subs[j], sections)[i], flags) {
        var j, i :| 0 <= j < |subs| && 0 <= i < |SectionOf(subs[j], sections)| && x == SampleOf(SectionOf(subs[j], sections)[i], flags);
        if j == n {
          assert last[i] == x;
        } else {
          assert pre[j] == subs[j];
        }
      }
    }
  }

  // ------------------------------------------------------------ ValidateData: what the fold computes

  /** The widest sample, or 0 when none has a width. */
  lemma {:induction false} FoldWidth(ss: seq<Sample>)
    ensures forall i :: 0 <= i < |ss| && ss[i].width.Some? ==> ss[i].width.value <= Fold(ss).widthMax
    ensures Fold(ss).widthMax == 0 || exists i :: 0 <= i < |ss| && ss[i].width == Some(Fold(ss).widthMax)
    decreases |ss|
  {
    if ss != [] {
      var n := |ss| - 1;
      var pre := ss[..n];
      FoldWidth(pre);
      assert forall i :: 0 <= i < n ==> pre[i] == ss[i];
      var w := Fold(ss).widthMax;
      if w != 0 && ss[n].width != Some(w) {
        var i :| 0 <= i < n && pre[i].width == Some(w);
        assert ss[i].width == Some(w);
      }
    }
  }

  /** The horizontal or the vertical view of a sample and of the locals. */
  function Side(s: Sample, vertical: bool): Option<Extent> { if vertical then s.vert else s.hori }
  function Seen(a: Acc, vertical: bool): bool { if vertical then a.anyV else a.anyH }
  function Gathered(a: Acc, vertical: bool): Extent { if vertical then a.v else a.h }

  /**
   * Field k of an extent, turned so that the loop keeps its least: the
   * bearing bounds as they are, `beforeBL` (the greatest) mirrored.
   */
  function Key(e: Extent, k: nat): int
  {
    if k == 0 then e.originSB else if k == 1 then e.advanceSB else if k == 2 then -1 - e.beforeBL else e.afterBL
  }

  lemma MergeKey(e: Extent, x: Extent, k: nat)
    ensures Key(Merge(e, x), k) == if Key(x, k) < Key(e, k) then Key(x, k) else Key(e, k)
  {
  }

  lemma {:induction false} FoldKey(ss: seq<Sample>, vertical: bool, k: nat)
    ensures forall i :: 0 <= i < |ss| && Side(ss[i], vertical).Some? ==> Key(Gathered(Fold(ss), vertical), k) <= Key(Side(ss[i], vertical).value, k)
    ensures Seen(Fold(ss), vertical) ==>
      exists i :: 0 <= i < |ss| && Side(ss[i], vertical).Some? && Key(Side(ss[i], vertical).value, k) == Key(Gathered(Fold(ss), vertical), k)
    ensures !Seen(Fold(ss), vertical) ==> Gathered(Fold(ss), vertical) == Unseen
    ensures Seen(Fold(ss), vertical) <==> exists i :: 0 <= i < |ss| && Side(ss[i], vertical).Some?
    decreases |ss|
  {
    if ss != [] {
      var n := |ss| - 1;
      var pre := ss[..n];
      FoldKey(pre, vertical, k);
      assert forall i :: 0 <= i < n ==> pre[i] == ss[i];
      var a := Fold(pre);
      var s := ss[n];
      if Side(s, vertical).Some? {
        MergeKey(Gathered(a, vertical), Side(s, vertical).value, k);
        if Key(Side(s, vertical).value, k) != Key(Gathered(Fold(ss), vertical), k) {
          var i :| 0 <= i < n && Side(pre[i], vertical).Some? && Key(Side(pre[i], vertical).value, k) == Key(Gathered(a, vertical), k);
          assert Side(ss[i], vertical) == Side(pre[i], vertical);
        }
      } else if Seen(a, vertical) {
        var i :| 0 <= i < n && Side(pre[i], vertical).Some? && Key(Side(pre[i], vertical).value, k) == Key(Gathered(a, vertical), k);
        assert Side(ss[i], vertical) == Side(pre[i], vertical);
      }
    }
  }

  /** e bounds x: the three least are at most x's, the greatest at least. */
  predicate Covers(e: Extent, x: Extent)
  {
    e.originSB <= x.originSB && e.advanceSB <= x.advanceSB && e.beforeBL >= x.beforeBL && e.afterBL <= x.afterBL
  }

  /** Every field of e is that of some sample's extent on this side. */
  predicate Attained(ss: seq<Sample>, vertical: bool, e: Extent)
  {
    && (exists i :: 0 <= i < |ss| && Side(ss[i], vertical).Some? && Side(ss[i], vertical).value.originSB == e.originSB)
    && (exists i :: 0 <= i < |ss| && Side(ss[i], vertical).Some? && Side(ss[i], vertical).value.advanceSB == e.advanceSB)
    && (exists i :: 0 <= i < |ss| && Side(ss[i], vertical).Some? && Side(ss[i], vertical).value.beforeBL == e.beforeBL)
    && (exists i :: 0 <= i < |ss| && Side(ss[i], vertical).Some? && Side(ss[i], vertical).value.afterBL == e.afterBL)
  }

  /**
   * The extent the loop gathers on one side bounds every sample's on that
   * side and each of its fields is some sample's; with none seen it is
   * the starting one.
   */
  lemma FoldSide(ss: seq<Sample>, vertical: bool)
    ensures Seen(Fold(ss), vertical) <==> exists i :: 0 <= i < |ss| && Side(ss[i], vertical).Some?
    ensures forall i :: 0 <= i < |ss| && Side(ss[i], vertical).Some? ==> Covers(Gathered(Fold(ss), vertical), Side(ss[i], vertical).value)
    ensures Seen(Fold(ss), vertical) ==> Attained(ss, vertical, Gathered(Fold(ss), vertical))
    ensures !Seen(Fold(ss), vertical) ==> Gathered(Fold(ss), vertical) == Unseen
  {
    FoldKey(ss, vertical, 0);
    FoldKey(ss, vertical, 1);
    FoldKey(ss, vertical, 2);
    FoldKey(ss, vertical, 3);
  }

  // ------------------------------------------------------------ ValidateData

  /** The four bounds of a line-metrics record. */
  function ExtentOf(m: LineMetrics): Extent
  {
    Extent(m.minOriginSB, m.minAdvanceSB, m.maxBeforeBL, m.minAfterBL)
  }

  /** The fields of a line-metrics record that `ValidateData` leaves alone. */
  predicate SameRest(m: LineMetrics, n: LineMetrics)
  {
    && m.ascender == n.ascender && m.descender == n.descender
    && m.caretSlopeNumerator == n.caretSlopeNumerator && m.caretSlopeDenominator == n.caretSlopeDenominator
    && m.caretOffset == n.caretOffset && m.pad1 == n.pad1 && m.pad2 == n.pad2
  }

  /** A line-metrics record with a new `widthMax` and, when the size has metrics in that direction, new bounds. */
  function Lines(m: LineMetrics, widthMax: byte, e: Option<Extent>): (n: LineMetrics)
    ensures SameRest(m, n) && n.widthMax == widthMax
    ensures ExtentOf(n) == if e.Some? then e.value else ExtentOf(m)
  {
    var m := m.(widthMax := widthMax);
    if e.Some? then
      m.(minOriginSB := e.value.originSB, minAdvanceSB := e.value.advanceSB,
         maxBeforeBL := e.value.beforeBL, minAfterBL := e.value.afterBL)
    else m
  }

  /**
   * `ValidateData` of a size whose subtables are subs: `widthMax` in both
   * directions, the bounds of each direction the flags name (which must
   * have seen a glyph), and the glyph range from the first subtable's
   * first glyph to the last one's last.
   */
  function Checked(d: SizeData, subs: seq<IndexSubtable>, sections: seq<seq<Ebdt.Bitmap>>): (res: Result<SizeData>)
  {
    var a := Fold(Samples(subs, sections, d.flags));
    if Horizontal(d.flags) && !a.anyH then Err(InvalidOperation(NoHorizontal))
    else if Vertical(d.flags) && !a.anyV then Err(InvalidOperation(NoVertical))
    else if subs == [] then Err(InvalidOperation(NoGlyph))
    else
      Ok(d.(hori := Lines(d.hori, a.widthMax, if Horizontal(d.flags) then Some(a.h) else None),
            vert := Lines(d.vert, a.widthMax, if Vertical(d.flags) then Some(a.v) else None),
            startGlyphIndex := subs[0].lookup.firstGlyphIndex,
            endGlyphIndex := subs[|subs| - 1].lookup.lastGlyphIndex))
  }

  /**
   * When `ValidateData` throws: a direction the flags name without any
   * glyph metrics for it (horizontal checked first), or a size without
   * subtables.
   */
  lemma CheckedFails(d: SizeData, subs: seq<IndexSubtable>, sections: seq<seq<Ebdt.Bitmap>>)
    ensures var ss := Samples(subs, sections, d.flags);
      && (Horizontal(d.flags) && (forall i :: 0 <= i < |ss| ==> ss[i].hori.None?) ==>
            Checked(d, subs, sections) == Err(InvalidOperation(NoHorizontal)))
      && ((Horizontal(d.flags) ==> exists i :: 0 <= i < |ss| && ss[i].hori.Some?) && Vertical(d.flags) &&
            (forall i :: 0 <= i < |ss| ==> ss[i].vert.None?) ==>
            Checked(d, subs, sections) == Err(InvalidOperation(NoVertical)))
      && (Checked(d, subs, sections).Ok? <==>
            subs != [] && (Horizontal(d.flags) ==> exists i :: 0 <= i < |ss| && ss[i].hori.Some?)
                       && (Vertical(d.flags) ==> exists i :: 0 <= i < |ss| && ss[i].vert.Some?))
      && (subs == [] ==> Checked(d, subs, sections).Err?)
  {
    var ss := Samples(subs, sections, d.flags);
    FoldSide(ss, false);
    FoldSide(ss, true);
  }

  /**
   * What a successful `ValidateData` writes: `widthMax` is the widest
   * glyph that counts (0 if none does); each direction the flags name
   * gets bounds that hold for every glyph and are each some glyph's, the
   * other keeps its own; the range runs from the first subtable's first
   * glyph to the last subtable's last; nothing else changes.
   */
  lemma CheckedFields(d: SizeData, subs: seq<IndexSubtable>, sections: seq<seq<Ebdt.Bitmap>>, r: SizeData)
    requires Checked(d, subs, sections) == Ok(r)
    ensures var ss := Samples(subs, sections, d.flags);
      && subs != []
      && r.startGlyphIndex == subs[0].lookup.firstGlyphIndex
      && r.endGlyphIndex == subs[|subs| - 1].lookup.lastGlyphIndex
      && r.hori.widthMax == r.vert.widthMax
      && (forall i :: 0 <= i < |ss| && ss[i].width.Some? ==> ss[i].width.value <= r.hori.widthMax)
      && (r.hori.widthMax == 0 || exists i :: 0 <= i < |ss| && ss[i].width == Some(r.hori.widthMax))
      && (Horizontal(d.flags) ==>
            (forall i :: 0 <= i < |ss| && ss[i].hori.Some? ==> Covers(ExtentOf(r.hori), ss[i].hori.value))
            && Attained(ss, false, ExtentOf(r.hori)))
      && (!Horizontal(d.flags) ==> ExtentOf(r.hori) == ExtentOf(d.hori))
      && (Vertical(d.flags) ==>
            (forall i :: 0 <= i < |ss| && ss[i].vert.Some? ==> Covers(ExtentOf(r.vert), ss[i].vert.value))
            && Attained(ss, true, ExtentOf(r.vert)))
      && (!Vertical(d.flags) ==> ExtentOf(r.vert) == ExtentOf(d.vert))
      && SameRest(d.hori, r.hori) && SameRest(d.vert, r.vert)
      && r == d.(hori := r.hori, vert := r.vert, startGlyphIndex := r.startGlyphIndex, endGlyphIndex := r.endGlyphIndex)
  {
    var ss := Samples(subs, sections, d.flags);
    FoldWidth(ss);
    FoldSide(ss, false);
    FoldSide(ss, true);
  }

  /** Validating the data again changes nothing. */
  lemma CheckedAgain(d: SizeData, subs: seq<IndexSubtable>, sections: seq<seq<Ebdt.Bitmap>>, r: SizeData)
    requires Checked(d, subs, sections) == Ok(r)
    ensures Checked(r, subs, sections) == Ok(r)
  {
  }

  /** One bitmap's turn: the comparisons of the loop body. */
  method Observe(a: Acc, s: Sample) returns (b: Acc)
    ensures b == Step(a, s)
  {
    b := a;
    if s.width.Some? && b.widthMax < s.width.value {
      b := b.(widthMax := s.width.value);
    }
    if s.hori.Some? {
      b := b.(h := Merge(b.h, s.hori.value), anyH := true);
    }
    if s.vert.Some? {
      b := b.(v := Merge(b.v, s.vert.value), anyV := true);
    }
  }

  lemma SectionStep(done: seq<Sample>, bs: seq<Ebdt.Bitmap>, flags: byte, i: nat)
    requires i < |bs|
    ensures Fold(done + BitmapSamples(bs[..i + 1], flags)) == Step(Fold(done + BitmapSamples(bs[..i], flags)), SampleOf(bs[i], flags))
  {
    var x := SampleOf(bs[i], flags);
    SamplesSnoc(bs, flags, i);
    SnocAssoc(done, BitmapSamples(bs[..i], flags), x);
    FoldSnoc(done + BitmapSamples(bs[..i], flags), x);
  }

  lemma SamplesSnoc(bs: seq<Ebdt.Bitmap>, flags: byte, i: nat)
    requires i < |bs|
    ensures BitmapSamples(bs[..i + 1], flags) == BitmapSamples(bs[..i], flags) + [SampleOf(bs[i], flags)]
  {
  }

  lemma SnocAssoc<T>(a: seq<T>, b: seq<T>, x: T)
    ensures a + (b + [x]) == (a + b) + [x]
  {
  }

  lemma SectionEnds(done: seq<Sample>, bs: seq<Ebdt.Bitmap>, flags: byte)
    ensures done + BitmapSamples(bs[..0], flags) == done
    ensures done + BitmapSamples(bs[..|bs|], flags) == done + BitmapSamples(bs, flags)
  {
    assert bs[..|bs|] == bs;
  }

  /** One subtable's section: the samples its bitmaps add to the locals. */
  method ValidateSection(ghost done: seq<Sample>, a: Acc, bs: seq<Ebdt.Bitmap>, flags: byte) returns (b: Acc)
    requires a == Fold(done)
    ensures b == Fold(done + BitmapSamples(bs, flags))
  {
    SectionEnds(done, bs, flags);
    b := a;
    for i := 0 to |bs|
      invariant b == Fold(done + BitmapSamples(bs[..i], flags))
    {
      SectionStep(done, bs, flags, i);
      b := Observe(b, SampleOf(bs[i], flags));
    }
  }

  /** `ValidateData`: the loop over the subtables, then the checks and the new record. */
  method ValidateData(d: SizeData, subs: seq<IndexSubtable>, sections: seq<seq<Ebdt.Bitmap>>) returns (res: Result<SizeData>)
    ensures res == Checked(d, subs, sections)
  {
    var a := Init;
    var start: Option<u16> := None;
    var end: u16 := 0;
    for i := 0 to |subs|
      invariant a == Fold(Samples(subs[..i], sections, d.flags))
      invariant i == 0 ==> start.None?
      invariant i > 0 ==> start == Some(subs[0].lookup.firstGlyphIndex) && end == subs[i - 1].lookup.lastGlyphIndex
    {
      if start.None? {
        start := Some(subs[i].lookup.firstGlyphIndex);
      }
      end := subs[i].lookup.lastGlyphIndex;
      SamplesNext(subs, sections, d.flags, i);
      a := ValidateSection(Samples(subs[..i], sections, d.flags), a, SectionOf(subs[i], sections), d.flags);
    }
    assert subs[..|subs|] == subs;
    var hori := Lines(d.hori, a.widthMax, None);
    var vert := Lines(d.vert, a.widthMax, None);
    if Horizontal(d.flags) {
      if !a.anyH {
        return Err(InvalidOperation(NoHorizontal));
      }
      hori := Lines(d.hori, a.widthMax, Some(a.h));
    }
    if Vertical(d.flags) {
      if !a.anyV {
        return Err(InvalidOperation(NoVertical));
      }
      vert := Lines(d.vert, a.widthMax, Some(a.v));
    }
    if start.None? {
      return Err(InvalidOperation(NoGlyph));
    }
    res := Ok(d.(hori := hori, vert := vert, startGlyphIndex := start.value, endGlyphIndex := end));
  }

  // ------------------------------------------------------------ Validate

  function SubtableChecks(subs: seq<IndexSubtable>, e: Ebdt.EbdtTable): (f: nat --> Result<IndexSubtable>)
    ensures forall j :: 0 <= j < |subs| ==> f.requires(j) && f(j) == CheckedSubtable(subs[j], e)
  {
    (j: nat) requires j < |subs| => CheckedSubtable(subs[j], e)
  }

  /** One size: its subtables in order, then its data from the validated subtables. */
  function CheckedSize(st: Strike, e: Ebdt.EbdtTable): (res: Result<Strike>)
  {
    var subs :- Gather(SubtableChecks(st.subtables, e), |st.subtables|);
    var data :- Checked(st.data, subs, e.sections);
    Ok(Strike(data, subs))
  }

  function SizeChecks(sizes: seq<Strike>, e: Ebdt.EbdtTable): (f: nat --> Result<Strike>)
    ensures forall j :: 0 <= j < |sizes| ==> f.requires(j) && f(j) == CheckedSize(sizes[j], e)
  {
    (j: nat) requires j < |sizes| => CheckedSize(sizes[j], e)
  }

  /** `Validate`: every size in order against the validated `EBDT` table; the first exception ends it. */
  function CheckedTable(t: EblcTable, e: Ebdt.EbdtTable): (res: Result<EblcTable>)
  {
    var sizes :- Gather(SizeChecks(t.sizes, e), |t.sizes|);
    Ok(t.(sizes := sizes))
  }

  /** The subtable loop of one size, then `ValidateData`. */
  method ValidateSize(st: Strike, e: Ebdt.EbdtTable) returns (res: Result<Strike>)
    ensures res == CheckedSize(st, e)
  {
    var n := |st.subtables|;
    var subs: seq<IndexSubtable> := [];
    for i := 0 to n
      invariant Gather(SubtableChecks(st.subtables, e), i) == Ok(subs)
    {
      var s := ValidateSubtable(st.subtables[i], e);
      GatherStep(SubtableChecks(st.subtables, e), i, n, subs, s);
      if s.Err? {
        return Err(s.error);
      }
      subs := subs + [s.value];
    }
    var data := ValidateData(st.data, subs, e.sections);
    if data.Err? {
      return Err(data.error);
    }
    res := Ok(Strike(data.value, subs));
  }

  /** `ValidateWithEbdt`, then `ValidateGlyphs`. */
  method ValidateSubtable(s: IndexSubtable, e: Ebdt.EbdtTable) returns (res: Result<IndexSubtable>)
    ensures res == CheckedSubtable(s, e)
  {
    var v := ValidateWithEbdt(s, e);
    if v.Err? {
      return Err(v.error);
    }
    var w := ValidateGlyphs(v.value, SectionOf(v.value, e.sections));
    res := Ok(w);
  }

  /** `Validate`: the sizes, then the table with them. */
  method Validate(t: EblcTable, e: Ebdt.EbdtTable) returns (res: Result<EblcTable>)
    ensures res == CheckedTable(t, e)
  {
    var sizes := ValidateSizes(t.sizes, e);
    if sizes.Err? {
      return Err(sizes.error);
    }
    res := Ok(t.(sizes := sizes.value));
  }

  /** `Validate`: the size loop. */
  method ValidateSizes(sizes: seq<Strike>, e: Ebdt.EbdtTable) returns (res: Result<seq<Strike>>)
    ensures res == Gather(SizeChecks(sizes, e), |sizes|)
  {
    var done: seq<Strike> := [];
    for i := 0 to |sizes|
      invariant Gather(SizeChecks(sizes, e), i) == Ok(done)
    {
      var st := ValidateSize(sizes[i], e);
      SizeTurn(sizes, e, i, done, st);
      if st.Err? {
        return Err(st.error);
      }
      done := done + [st.value];
    }
    return Ok(done);
  }

  /** One turn of the size loop: a size that checks extends the sizes so far, one that fails ends the loop. */
  lemma {:induction false} SizeTurn(sizes: seq<Strike>, e: Ebdt.EbdtTable, i: nat, done: seq<Strike>, st: Result<Strike>)
    requires i < |sizes| && Gather(SizeChecks(sizes, e), i) == Ok(done) && st == CheckedSize(sizes[i], e)
    ensures st.Ok? ==> Gather(SizeChecks(sizes, e), i + 1) == Ok(done + [st.value])
    ensures st.Err? ==> Gather(SizeChecks(sizes, e), |sizes|) == Err(st.error)
  {
    GatherStep(SizeChecks(sizes, e), i, |sizes|, done, st);
  }

  // ------------------------------------------------------------ what Validate guarantees

  /** Validating a subtable again changes nothing. */
  lemma SubtableAgain(s: IndexSubtable, e: Ebdt.EbdtTable, v: IndexSubtable)
    requires CheckedSubtable(s, e) == Ok(v)
    ensures CheckedSubtable(v, e) == Ok(v)
  {
    var u := WithEbdt(s, e).value;
    assert WithEbdt(v, e) == Ok(v);
  }

  /** Validating a size again changes nothing. */
  lemma {:induction false} SizeAgain(st: Strike, e: Ebdt.EbdtTable, w: Strike)
    requires CheckedSize(st, e) == Ok(w)
    ensures CheckedSize(w, e) == Ok(w)
  {
    var subs := Gather(SubtableChecks(st.subtables, e), |st.subtables|).value;
    GatherEach(SubtableChecks(st.subtables, e), |st.subtables|, subs);
    assert w.subtables == subs;
    forall j | 0 <= j < |subs|
      ensures SubtableChecks(subs, e)(j) == Ok(subs[j])
    {
      SubtableAgain(st.subtables[j], e, subs[j]);
    }
    GatherWhole(SubtableChecks(subs, e), subs);
    CheckedAgain(st.data, subs, e.sections, w.data);
  }

  /** `Validate` is idempotent: the validated table validates to itself. */
  lemma {:induction false} ValidateAgain(t: EblcTable, e: Ebdt.EbdtTable, w: EblcTable)
    requires CheckedTable(t, e) == Ok(w)
    ensures CheckedTable(w, e) == Ok(w)
  {
    var sizes := Gather(SizeChecks(t.sizes, e), |t.sizes|).value;
    GatherEach(SizeChecks(t.sizes, e), |t.sizes|, sizes);
    forall j | 0 <= j < |sizes|
      ensures SizeChecks(sizes, e)(j) == Ok(sizes[j])
    {
      SizeAgain(t.sizes[j], e, sizes[j]);
    }
    GatherWhole(SizeChecks(sizes, e), sizes);
  }

  /**
   * The shape `Validate` keeps: the header, the number of sizes and of
   * subtables of each, every subtable's range, body format and section;
   * each validated size's data is `ValidateData` of its validated subtables.
   */
  lemma {:induction false} ValidateKeeps(t: EblcTable, e: Ebdt.EbdtTable, w: EblcTable, i: nat)
    requires CheckedTable(t, e) == Ok(w) && i < |t.sizes|
    ensures w.header == t.header && |w.sizes| == |t.sizes|
    ensures |w.sizes[i].subtables| == |t.sizes[i].subtables|
    ensures Checked(t.sizes[i].data, w.sizes[i].subtables, e.sections) == Ok(w.sizes[i].data)
    ensures forall j :: 0 <= j < |t.sizes[i].subtables| ==>
      CheckedSubtable(t.sizes[i].subtables[j], e) == Ok(w.sizes[i].subtables[j])
      && w.sizes[i].subtables[j].lookup == t.sizes[i].subtables[j].lookup
      && w.sizes[i].subtables[j].section == t.sizes[i].subtables[j].section
      && IndexFormat(w.sizes[i].subtables[j].body) == IndexFormat(t.sizes[i].subtables[j].body)
  {
    var sizes := Gather(SizeChecks(t.sizes, e), |t.sizes|).value;
    GatherEach(SizeChecks(t.sizes, e), |t.sizes|, sizes);
    var st := t.sizes[i];
    var subs := Gather(SubtableChecks(st.subtables, e), |st.subtables|).value;
    GatherEach(SubtableChecks(st.subtables, e), |st.subtables|, subs);
  }

  /**
   * After `Validate` every format-1 subtable locates its section where
   * `EBDT`'s `Serialize` puts it and as its `Deserialize` reads it back:
   * the section's offset and format, its glyph count and the offset of
   * every bitmap — for a section of one variable-metrics format whose
   * metrics match their pixels, in an `EBDT` table below 2^31 bytes.
   */
  lemma {:induction false} ValidateLocates(t: EblcTable, e: Ebdt.EbdtTable, w: EblcTable, i: nat, j: nat)
    requires CheckedTable(t, e) == Ok(w) && i < |t.sizes| && j < |t.sizes[i].subtables|
    requires t.sizes[i].subtables[j].body.Offsets32?
    requires Ebdt.GetSize(e) < 0x8000_0000
    requires var bs := SectionOf(t.sizes[i].subtables[j], e.sections);
      && bs != [] && Ebdt.VariableFormat(Ebdt.Format(bs[0]))
      && forall g :: 0 <= g < |bs| ==> Ebdt.Format(bs[g]) == Ebdt.Format(bs[0]) && EbdtRoundTrip.Consistent(bs[g])
    ensures var s := t.sizes[i].subtables[j];
      && s.section.Some? && s.section.value < |e.sections|
      && i < |w.sizes| && j < |w.sizes[i].subtables|
      && EbdtRoundTrip.VariableDescribes(EblcRead.LocatorOf(w.sizes[i].subtables[j]), SectionStart(e, s.section.value), e.sections[s.section.value])
  {
    ValidateKeeps(t, e, w, i);
    CheckedDescribes(t.sizes[i].subtables[j], e, w.sizes[i].subtables[j]);
  }
}
