/**
 * `TrueTypeFontBuilder` (`src/Builder/TrueTypeFontBuilder.cs`): glyphs are
 * registered by BMP code point under the admission rules of the Apple
 * TrueType Reference Manual (chapter 7, appendix B), and `Build` puts the
 * font together: glyph 0 (the missing-character glyph), glyph 1 (the null
 * glyph) and then the registered glyphs by ascending code, converted to
 * `cmap`, `glyf`/`hmtx` and `EBLC`/`EBDT`.
 */
module Builder {
  import opened Bytes
  import opened Wrappers
  import opened BuilderGlyphs
  import Sorting
  import BuilderCmap
  import BuilderOutlines
  import BuilderBitmaps
  import Cmap
  import GlyfTable
  import Hmtx
  import Eblc
  import Ebdt
  import FontTags

  /** One entry of the glyph dictionary: a code and the glyph registered under it. */
  datatype Registration = Registration(code: u16, glyph: BuilderGlyph)

  /** The dictionary's keys, in insertion order. */
  function Codes(rs: seq<Registration>): (cs: seq<u16>)
    ensures |cs| == |rs| && forall i :: 0 <= i < |rs| ==> cs[i] == rs[i].code
  {
    seq(|rs|, i requires 0 <= i < |rs| => rs[i].code)
  }

  /** The dictionary's glyphs, in the same order. */
  function Glyphs(rs: seq<Registration>): (gs: seq<BuilderGlyph>)
    ensures |gs| == |rs| && forall i :: 0 <= i < |rs| ==> gs[i] == rs[i].glyph
  {
    seq(|rs|, i requires 0 <= i < |rs| => rs[i].glyph)
  }

  /** The key `OrderBy` sorts on. */
  function CodeKey(r: Registration): int
  {
    r.code as int
  }

  // ------------------------------------------------------------ admission

  /** The control codes that are always mapped to glyph 0 or 1 and cannot be registered. */
  predicate Unmappable(code: u16)
  {
    (1 <= code <= 0x08) || (0x0A <= code <= 0x0C) || (0x0E <= code <= 0x1F) || code == 0x7F
  }

  /** Tab, carriage return, space and no-break space: their glyph must have no contours. */
  predicate MustBeBlank(code: u16)
  {
    code == 0x09 || code == 0x0D || code == 0x20 || code == 0xA0
  }

  /** A code the dictionary may hold for this glyph. */
  predicate Admissible(code: u16, g: BuilderGlyph)
  {
    code != 0 && !Unmappable(code) && !(MustBeBlank(code) && HasContours(g))
  }

  /** What the builder has registered: glyph 0, if set, and the dictionary in insertion order. */
  datatype Registry = Registry(glyphZero: Option<BuilderGlyph>, glyphs: seq<Registration>)

  /** The registry invariant: distinct keys, each admissible for its glyph. */
  predicate WellFormed(r: Registry)
  {
    && Sorting.KeysDistinct(r.glyphs, CodeKey)
    && forall i :: 0 <= i < |r.glyphs| ==> Admissible(r.glyphs[i].code, r.glyphs[i].glyph)
  }

  /**
   * `TryAddGlyph(ushort, IBuilderGlyph)`: code 0 sets glyph 0 once; the
   * unmappable codes, and the blank-only codes with a glyph that has
   * contours, are refused; any other code is added unless already present
   * (`TryAdd` never overwrites).
   */
  function Register(r: Registry, code: u16, g: BuilderGlyph): (Registry, bool)
  {
    if code == 0 then
      if r.glyphZero.None? then (r.(glyphZero := Some(g)), true) else (r, false)
    else if Unmappable(code) then (r, false)
    else if MustBeBlank(code) && HasContours(g) then (r, false)
    else if code in Codes(r.glyphs) then (r, false)
    else (r.(glyphs := r.glyphs + [Registration(code, g)]), true)
  }

  /**
   * Registration succeeds exactly for a first glyph 0 or for an admissible
   * code not yet registered; it never changes or removes what is already
   * registered, and a successful one makes the code map to the glyph.
   */
  lemma {:induction false} RegisterMeans(r: Registry, code: u16, g: BuilderGlyph)
    ensures var (r', added) := Register(r, code, g);
            && (added <==> (code == 0 && r.glyphZero.None?) || (Admissible(code, g) && code !in Codes(r.glyphs)))
            && (r.glyphZero.Some? ==> r'.glyphZero == r.glyphZero)
            && |r.glyphs| <= |r'.glyphs| <= |r.glyphs| + 1
            && (forall i :: 0 <= i < |r.glyphs| ==> r'.glyphs[i] == r.glyphs[i])
            && (added && code == 0 ==> r'.glyphZero == Some(g))
            && (added && code != 0 ==> r'.glyphs[|r'.glyphs| - 1] == Registration(code, g))
            && (!added ==> r' == r)
  {
  }

  /** Registration keeps the registry invariant. */
  lemma {:induction false} RegisterKeepsWellFormed(r: Registry, code: u16, g: BuilderGlyph)
    requires WellFormed(r)
    ensures WellFormed(Register(r, code, g).0)
  {
    var (r', added) := Register(r, code, g);
    if added && code != 0 {
      var n := |r.glyphs|;
      assert r'.glyphs == r.glyphs + [Registration(code, g)];
      forall i, j | 0 <= i < j < |r'.glyphs|
        ensures CodeKey(r'.glyphs[i]) != CodeKey(r'.glyphs[j])
      {
        if j == n {
          assert r'.glyphs[i].code == Codes(r.glyphs)[i];
        }
      }
    }
  }

  // ------------------------------------------------------------ Build

  /** The space code `Build` always maps. */
  const SpaceCode: u16 := 0x20

  /** `Build`'s first two steps: glyph 0 defaults to `new EmptyGlyph()`, and a space `new EmptyGlyph(MetricWidth)` is added unless mapped. */
  function WithDefaults(s: Settings, r: Registry): Registry
  {
    Registry(Some(if r.glyphZero.Some? then r.glyphZero.value else EmptyGlyph()),
             if SpaceCode in Codes(r.glyphs) then r.glyphs
             else r.glyphs + [Registration(SpaceCode, EmptyGlyphOf(s.metricWidth))])
  }

  /**
   * After the defaults glyph 0 is set (to the registered one if any), the
   * space is mapped, nothing registered before is lost, the invariant
   * still holds, and applying the defaults again changes nothing.
   */
  lemma {:induction false} DefaultsMeans(s: Settings, r: Registry)
    requires WellFormed(r)
    ensures var r' := WithDefaults(s, r);
            && WellFormed(r') && r'.glyphZero.Some? && SpaceCode in Codes(r'.glyphs)
            && (r.glyphZero.Some? ==> r'.glyphZero == r.glyphZero)
            && r.glyphs <= r'.glyphs && |r'.glyphs| <= |r.glyphs| + 1
            && WithDefaults(s, r') == r'
  {
    var r' := WithDefaults(s, r);
    if SpaceCode !in Codes(r.glyphs) {
      RegisterKeepsWellFormed(r, SpaceCode, EmptyGlyphOf(s.metricWidth));
      assert Register(r, SpaceCode, EmptyGlyphOf(s.metricWidth)).0.glyphs == r'.glyphs;
      assert Codes(r'.glyphs)[|r.glyphs|] == SpaceCode;
    }
  }

  /** The glyph order: glyph 0, the null glyph 1 (`new EmptyGlyph(0)`), then the sorted registrations. */
  function GlyphOrder(zero: BuilderGlyph, sorted: seq<Registration>): (order: seq<BuilderGlyph>)
    ensures |order| == |sorted| + 2
  {
    [zero, EmptyGlyphOf(0)] + Glyphs(sorted)
  }

  /** The order `Build` adds the tables in. */
  const TableOrder: seq<FontTags.Kind> := [FontTags.Cmap, FontTags.Glyf, FontTags.Head, FontTags.Hhea,
    FontTags.Hmtx, FontTags.Loca, FontTags.Maxp, FontTags.Name, FontTags.Post, FontTags.Os2,
    FontTags.Gasp, FontTags.Eblc, FontTags.Ebdt]

  /** The font `Build` returns: the kinds of its tables, in order, and the tables computed from the glyphs. */
  datatype BuiltFont = BuiltFont(kinds: seq<FontTags.Kind>, cmap: Cmap.CmapTable, glyf: GlyfTable.GlyfTable,
                                 hmtx: Hmtx.HmtxData, eblc: Eblc.EblcTable, ebdt: Ebdt.EbdtTable)

  /** The tables `Build` computes from glyph 0 and the sorted registrations; the bitmap conversion may throw. */
  function FontOf(s: Settings, zero: BuilderGlyph, sorted: seq<Registration>): Result<BuiltFont>
  {
    var order := GlyphOrder(zero, sorted);
    var tables := BuilderOutlines.GlyfAndHmtx(s, order);
    match BuilderBitmaps.EblcAndEbdt(s, order)
    case Err(e) => Err(e)
    case Ok(bitmaps) =>
      Ok(BuiltFont(TableOrder, BuilderCmap.CmapOf(Codes(sorted)), tables.0, tables.1, bitmaps.0, bitmaps.1))
  }

  /**
   * Sorting the dictionary keeps every registration and orders the codes
   * strictly ascending, so the k-th sorted registration is glyph k + 2.
   */
  lemma {:induction false} SortedRegistrations(r: Registry)
    requires WellFormed(r)
    ensures var sorted := Sorting.Sort(r.glyphs, CodeKey);
            && BuilderCmap.Ascending(Codes(sorted)) && multiset(sorted) == multiset(r.glyphs)
            && forall i :: 0 <= i < |r.glyphs| ==> exists k :: 0 <= k < |sorted| && sorted[k] == r.glyphs[i]
  {
    var sorted := Sorting.Sort(r.glyphs, CodeKey);
    Sorting.SortStrict(r.glyphs, CodeKey);
    Sorting.SortSorts(r.glyphs, CodeKey);
    forall i | 0 <= i < |r.glyphs|
      ensures exists k :: 0 <= k < |sorted| && sorted[k] == r.glyphs[i]
    {
      assert r.glyphs[i] in multiset(sorted);
    }
  }

  /** The parts of a successful build. */
  lemma {:induction false} FontParts(s: Settings, zero: BuilderGlyph, sorted: seq<Registration>)
    requires FontOf(s, zero, sorted).Ok?
    ensures var f, order := FontOf(s, zero, sorted).value, GlyphOrder(zero, sorted);
            && f.kinds == TableOrder && f.cmap == BuilderCmap.CmapOf(Codes(sorted))
            && (f.glyf, f.hmtx) == BuilderOutlines.GlyfAndHmtx(s, order)
            && BuilderBitmaps.EblcAndEbdt(s, order) == Ok((f.eblc, f.ebdt))
  {
  }

  /** The glyph tables of glyph 0, glyph 1 and the sorted glyphs. */
  lemma {:induction false} OrderTables(s: Settings, zero: BuilderGlyph, sorted: seq<Registration>)
    ensures var (glyf, hmtx) := BuilderOutlines.GlyfAndHmtx(s, GlyphOrder(zero, sorted));
            && glyf.align && |glyf.entries| == |hmtx.longHorMetric| == |sorted| + 2 && hmtx.leftSideBearing == []
            && Hmtx.Validate(hmtx, |glyf.entries|).Ok?
            && glyf.entries[0] == BuilderOutlines.OutlineOf(s, zero).entry
            && glyf.entries[1].None? && hmtx.longHorMetric[1] == Hmtx.LongHorMetric(0, 0)
            && forall k :: 0 <= k < |sorted| ==>
                 var o := BuilderOutlines.OutlineOf(s, sorted[k].glyph);
                 glyf.entries[k + 2] == o.entry && hmtx.longHorMetric[k + 2] == Hmtx.LongHorMetric(o.width, o.lsb)
  {
    var order := GlyphOrder(zero, sorted);
    BuilderOutlines.EntriesAt(s, order);
    BuilderOutlines.GlyfAndHmtxAgree(s, order);
    assert order[1] == EmptyGlyphOf(0);
    assert forall k :: 0 <= k < |sorted| ==> order[k + 2] == sorted[k].glyph;
  }

  /** The glyph tables of a build: one `glyf` entry and `hmtx` metric per glyph, glyph 1 null with no advance. */
  lemma {:induction false} BuiltGlyphs(s: Settings, zero: BuilderGlyph, sorted: seq<Registration>)
    requires FontOf(s, zero, sorted).Ok?
    ensures var f := FontOf(s, zero, sorted).value;
            && f.kinds == TableOrder && f.glyf.align
            && |f.glyf.entries| == |f.hmtx.longHorMetric| == |sorted| + 2 && f.hmtx.leftSideBearing == []
            && Hmtx.Validate(f.hmtx, |f.glyf.entries|).Ok?
            && f.glyf.entries[0] == BuilderOutlines.OutlineOf(s, zero).entry
            && f.glyf.entries[1].None? && f.hmtx.longHorMetric[1] == Hmtx.LongHorMetric(0, 0)
            && forall k :: 0 <= k < |sorted| ==>
                 var o := BuilderOutlines.OutlineOf(s, sorted[k].glyph);
                 f.glyf.entries[k + 2] == o.entry && f.hmtx.longHorMetric[k + 2] == Hmtx.LongHorMetric(o.width, o.lsb)
  {
    FontParts(s, zero, sorted);
    OrderTables(s, zero, sorted);
  }

  /**
   * The `cmap` of a build: its Unicode segments map each sorted code to
   * glyph k + 2 and the forced control codes to glyph 1; and, when the
   * bitmap tables are built for at most 65536 glyphs, every `EBLC` index
   * subtable counts its `EBDT` section.
   */
  lemma {:induction false} BuiltMaps(s: Settings, zero: BuilderGlyph, sorted: seq<Registration>)
    requires BuilderCmap.Ascending(Codes(sorted)) && FontOf(s, zero, sorted).Ok?
    ensures var f := FontOf(s, zero, sorted).value;
            && Cmap.Valid(f.cmap)
            && var segments := f.cmap.pool[0].segments;
            && (forall k :: 0 <= k < |sorted| ==>
                  BuilderCmap.Covered(segments, BuilderCmap.Mapping(sorted[k].code, BuilderCmap.GlyphOf(k))))
            && (forall j :: 0 <= j < |BuilderCmap.ForcedCodes| ==>
                  BuilderCmap.Covered(segments, BuilderCmap.Mapping(BuilderCmap.ForcedCodes[j], 1)))
            && (|sorted| + 2 <= 0x1_0000 ==> BuilderBitmaps.Counted(f.eblc, f.ebdt))
  {
    var codes := Codes(sorted);
    FontParts(s, zero, sorted);
    BuilderCmap.CmapMaps(codes);
    if |sorted| + 2 <= 0x1_0000 {
      BuilderBitmaps.SubtablesCount(s, GlyphOrder(zero, sorted));
    }
  }

  /** With a point scale of 0 the bitmap conversion divides by zero, so `Build` throws. */
  lemma {:induction false} BuildWithoutScale(s: Settings, zero: BuilderGlyph, sorted: seq<Registration>)
    requires s.pointScale == 0
    ensures FontOf(s, zero, sorted) == Err(DivideByZero)
  {
  }

  // ------------------------------------------------------------ the PostScript name

  /** `IsPostScriptAvailableChar`: printable ASCII other than the ten PostScript delimiters. */
  predicate PostScriptAvailable(c: char)
  {
    0x21 <= c as int <= 0x7E && c !in "[](){}<>/%"
  }

  /** The family name with every character PostScript does not allow replaced by `_`. */
  function Sanitized(name: string): (r: string)
    ensures |r| == |name|
  {
    seq(|name|, i requires 0 <= i < |name| => if PostScriptAvailable(name[i]) then name[i] else '_')
  }

  /**
   * The sanitised name has the family's length, only allowed characters,
   * keeps every allowed character in place, and is its own sanitisation.
   */
  lemma {:induction false} SanitizedMeans(name: string)
    ensures var r := Sanitized(name);
            && (forall i :: 0 <= i < |r| ==> PostScriptAvailable(r[i]))
            && (forall i :: 0 <= i < |r| ==> (PostScriptAvailable(name[i]) <==> r[i] == name[i]))
            && Sanitized(r) == r
  {
    assert PostScriptAvailable('_');
    var r := Sanitized(name);
    forall i | 0 <= i < |r|
      ensures PostScriptAvailable(r[i]) && (PostScriptAvailable(name[i]) <==> r[i] == name[i])
    {
    }
    assert Sanitized(r) == r;
  }

  /** The loop in `BuildName` over `FontFamily.ToCharArray()`. */
  method PostScriptName(fontFamily: string) returns (postScriptName: string)
    ensures postScriptName == Sanitized(fontFamily)
  {
    var span := new char[|fontFamily|](i requires 0 <= i < |fontFamily| => fontFamily[i]);
    for i := 0 to span.Length
      invariant forall k :: 0 <= k < i ==> span[k] == Sanitized(fontFamily)[k]
      invariant forall k :: i <= k < span.Length ==> span[k] == fontFamily[k]
    {
      var c := span[i];
      if !PostScriptAvailable(c) {
        span[i] := '_';
      }
    }
    postScriptName := span[..];
  }

  // ------------------------------------------------------------ the builder

  /** `Create`'s check: an empty family or subfamily name throws. */
  function CreateCheck(fontFamily: string, subfamily: string): (r: Option<Error>)
    ensures r.Some? <==> fontFamily == [] || subfamily == []
    ensures r.Some? ==> r.value == NullReference
  {
    if fontFamily == [] || subfamily == [] then Some(NullReference) else None
  }

  class TrueTypeFontBuilder {
    const unitsPerEm: u16
    var fontFamily: string
    var subfamily: string
    var baseline: u16
    var metricWidth: u16
    var metricHeight: u16
    var autoTrimPadding: u16
    var pointScale: i32
    var glyphZero: Option<BuilderGlyph>
    var glyphs: seq<Registration>
    var sortedGlyphs: seq<Registration>

    /** The metric properties the conversions read. */
    function Settings(): Settings
      reads this
    {
      BuilderGlyphs.Settings(unitsPerEm, baseline, metricWidth, metricHeight, autoTrimPadding, pointScale)
    }

    /** Glyph 0 and the dictionary. */
    function Registered(): Registry
      reads this
    {
      Registry(glyphZero, glyphs)
    }

    predicate Valid()
      reads this
    {
      WellFormed(Registered())
    }

    /** The constructor, past its checks of the two names; every other property at its default. */
    constructor (unitsPerEm: u16, fontFamily: string, subfamily: string)
      requires CreateCheck(fontFamily, subfamily).None?
      ensures Valid() && glyphZero.None? && glyphs == [] && sortedGlyphs == []
      ensures this.unitsPerEm == unitsPerEm && this.fontFamily == fontFamily && this.subfamily == subfamily
      ensures baseline == 0 && metricWidth == 0 && metricHeight == 0 && autoTrimPadding == 0 && pointScale == 0
    {
      this.unitsPerEm := unitsPerEm;
      this.fontFamily := fontFamily;
      this.subfamily := subfamily;
      baseline, metricWidth, metricHeight, autoTrimPadding, pointScale := 0, 0, 0, 0, 0;
      glyphZero := None;
      glyphs := [];
      sortedGlyphs := [];
    }

    /** `TryAddGlyph(ushort, IBuilderGlyph)`. */
    method TryAddGlyph(code: u16, glyph: BuilderGlyph) returns (added: bool)
      requires Valid()
      modifies this
      ensures Valid() && (Registered(), added) == Register(old(Registered()), code, glyph)
      ensures Settings() == old(Settings()) && sortedGlyphs == old(sortedGlyphs)
      ensures fontFamily == old(fontFamily) && subfamily == old(subfamily)
    {
      RegisterKeepsWellFormed(Registered(), code, glyph);
      if code == 0 {
        if glyphZero.None? {
          glyphZero := Some(glyph);
        } else {
          return false;
        }
        return true;
      }
      if code <= 0x08 || (0x0A <= code && code <= 0x0C) || (0x0E <= code && code <= 0x1F) || code == 0x7F {
        return false;
      }
      if code == 0x09 || code == 0x0D || code == 0x20 || code == 0xA0 {
        if |glyph.contours| > 0 {
          return false;
        }
      }
      added := TryAdd(code, glyph);
    }

    /** `Dictionary.TryAdd`: adds the entry unless the key is present. */
    method TryAdd(code: u16, glyph: BuilderGlyph) returns (added: bool)
      modifies this
      ensures added <==> code !in Codes(old(glyphs))
      ensures glyphs == if added then old(glyphs) + [Registration(code, glyph)] else old(glyphs)
      ensures glyphZero == old(glyphZero) && Settings() == old(Settings()) && sortedGlyphs == old(sortedGlyphs)
      ensures fontFamily == old(fontFamily) && subfamily == old(subfamily)
    {
      if code in Codes(glyphs) {
        return false;
      }
      glyphs := glyphs + [Registration(code, glyph)];
      return true;
    }

    /**
     * `Build`: the defaults go in, the dictionary is sorted by code, and the
     * tables are computed for glyph 0, glyph 1 and the sorted glyphs; the
     * defaults and the sorted list stay in the builder even when the
     * bitmap conversion throws.
     */
    method Build() returns (font: Result<BuiltFont>)
      requires Valid()
      modifies this
      ensures Valid() && Registered() == WithDefaults(old(Settings()), old(Registered()))
      ensures Settings() == old(Settings()) && fontFamily == old(fontFamily) && subfamily == old(subfamily)
      ensures sortedGlyphs == Sorting.Sort(glyphs, CodeKey) && glyphZero.Some?
      ensures font == FontOf(Settings(), glyphZero.value, sortedGlyphs)
    {
      AddDefaults();
      sortedGlyphs := Sorting.Sort(glyphs, CodeKey);
      font := BuildTables(Settings(), glyphZero.value, sortedGlyphs);
    }

    /** The first two steps of `Build`: the default glyph 0 and the space. */
    method AddDefaults()
      requires Valid()
      modifies this
      ensures Valid() && Registered() == WithDefaults(old(Settings()), old(Registered())) && glyphZero.Some?
      ensures Settings() == old(Settings()) && fontFamily == old(fontFamily) && subfamily == old(subfamily)
    {
      DefaultsMeans(Settings(), Registered());
      if glyphZero.None? {
        glyphZero := Some(EmptyGlyph());
      }
      var _ := TryAdd(SpaceCode, EmptyGlyphOf(metricWidth));
    }
  }

  /** The table computations of `Build`, for glyph 0 and the sorted registrations. */
  method BuildTables(s: Settings, zero: BuilderGlyph, sorted: seq<Registration>) returns (font: Result<BuiltFont>)
    ensures font == FontOf(s, zero, sorted)
  {
    var order := [zero, EmptyGlyphOf(0)] + Glyphs(sorted);
    var glyf, hmtx := BuilderOutlines.BuildGlyfAndHmtx(s, order);
    var cmap := BuilderCmap.BuildCmap(Codes(sorted));
    var bitmaps := BuilderBitmaps.BuildEblcAndEbdt(s, order);
    if bitmaps.Err? {
      return Err(bitmaps.error);
    }
    font := Ok(BuiltFont(TableOrder, cmap, glyf, hmtx, bitmaps.value.0, bitmaps.value.1));
  }

  /** `new TrueTypeFontBuilder(unitsPerEm, fontFamily, subfamily)`, with the throw as an error. */
  method Create(unitsPerEm: u16, fontFamily: string, subfamily: string) returns (r: Result<TrueTypeFontBuilder>)
    ensures r.Err? <==> CreateCheck(fontFamily, subfamily).Some?
    ensures r.Err? ==> r.error == NullReference
    ensures r.Ok? ==> fresh(r.value) && r.value.Valid() && r.value.glyphs == [] && r.value.glyphZero.None?
  {
    if fontFamily == [] || subfamily == [] {
      return Err(NullReference);
    }
    var b := new TrueTypeFontBuilder(unitsPerEm, fontFamily, subfamily);
    return Ok(b);
  }
}
