/**
 * `TrueTypeFontBuilder.BuildCmap` (`src/Builder/TrueTypeFontBuilder.cs`):
 * the registered codes, in ascending order, are merged with the four codes
 * the builder maps to the null glyph 1; the merged list is cut into the
 * format-4 segments; codes up to 255 also go into a format-0 array.  The
 * (0, 3) and (3, 1) records share the format-4 subtable, (1, 0) uses the
 * format-0 one.
 */
module BuilderCmap {
  import opened Bytes
  import opened Wrappers
  import opened CmapSubtables
  import Cmap

  /** One element of `glyphIndexMap`: a code and its glyph. */
  datatype Mapping = Mapping(code: u16, glyph: u16)

  /** `CodesMappedToGlyphOne`. */
  const ForcedCodes: seq<u16> := [0x00, 0x08, 0x0D, 0x1D]

  /** The glyph of the k-th registered code, after glyphs 0 and 1: `(ushort)(unmappedGlyphs + k)`. */
  function GlyphOf(k: nat): u16
  {
    (2 + k) % 0x1_0000
  }

  /** Strictly ascending codes, as the keys of the sorted glyph list are. */
  predicate Ascending(codes: seq<u16>)
  {
    forall i, j :: 0 <= i < j < |codes| ==> codes[i] < codes[j]
  }

  /** Codes in non-decreasing order. */
  predicate CodesSorted(m: seq<Mapping>)
  {
    forall i, j :: 0 <= i < j < |m| ==> m[i].code <= m[j].code
  }

  // ------------------------------------------------------------ the merged list

  /** The registered codes from the k-th on, each with its glyph. */
  function Registered(codes: seq<u16>, k: nat): (r: seq<Mapping>)
    requires k <= |codes|
    ensures |r| == |codes| - k && forall i :: 0 <= i < |r| ==> r[i] == Mapping(codes[k + i], GlyphOf(k + i))
  {
    seq(|codes| - k, i requires 0 <= i < |codes| - k => Mapping(codes[k + i], GlyphOf(k + i)))
  }

  /** The forced codes, each with glyph 1. */
  function Forced(ones: seq<u16>): (r: seq<Mapping>)
    ensures |r| == |ones| && forall i :: 0 <= i < |r| ==> r[i] == Mapping(ones[i], 1)
  {
    seq(|ones|, i requires 0 <= i < |ones| => Mapping(ones[i], 1))
  }

  /**
   * The merge from the k-th registered code with the forced codes `ones`
   * still to place: a registered code goes first only while it is smaller
   * than the next forced code.
   */
  function MergeFrom(codes: seq<u16>, k: nat, ones: seq<u16>): (r: seq<Mapping>)
    requires k <= |codes|
    ensures |r| == |codes| - k + |ones|
    decreases |codes| - k + |ones|
  {
    if ones != [] && (k == |codes| || ones[0] <= codes[k]) then [Mapping(ones[0], 1)] + MergeFrom(codes, k, ones[1..])
    else if k < |codes| then [Mapping(codes[k], GlyphOf(k))] + MergeFrom(codes, k + 1, ones)
    else []
  }

  /** `glyphIndexMap`. */
  function Merged(codes: seq<u16>): seq<Mapping>
  {
    MergeFrom(codes, 0, ForcedCodes)
  }

  /** The merge holds the registered mappings and the forced ones, each once. */
  lemma {:induction false} MergeFromPermutes(codes: seq<u16>, k: nat, ones: seq<u16>)
    requires k <= |codes|
    ensures multiset(MergeFrom(codes, k, ones)) == multiset(Registered(codes, k)) + multiset(Forced(ones))
    decreases |codes| - k + |ones|
  {
    if ones != [] && (k == |codes| || ones[0] <= codes[k]) {
      MergeFromPermutes(codes, k, ones[1..]);
      ForcedCons(ones);
      ConsRight(Mapping(ones[0], 1), MergeFrom(codes, k, ones[1..]), Registered(codes, k), Forced(ones[1..]));
    } else if k < |codes| {
      MergeFromPermutes(codes, k + 1, ones);
      RegisteredCons(codes, k);
      ConsLeft(Mapping(codes[k], GlyphOf(k)), MergeFrom(codes, k + 1, ones), Registered(codes, k + 1), Forced(ones));
    } else {
      assert Registered(codes, k) == [] && Forced(ones) == [];
    }
  }

  lemma {:induction false} ForcedCons(ones: seq<u16>)
    requires ones != []
    ensures Forced(ones) == [Mapping(ones[0], 1)] + Forced(ones[1..])
  {
  }

  lemma {:induction false} RegisteredCons(codes: seq<u16>, k: nat)
    requires k < |codes|
    ensures Registered(codes, k) == [Mapping(codes[k], GlyphOf(k))] + Registered(codes, k + 1)
  {
  }

  lemma {:induction false} ConsLeft<T>(x: T, a: seq<T>, b: seq<T>, c: seq<T>)
    requires multiset(a) == multiset(b) + multiset(c)
    ensures multiset([x] + a) == multiset([x] + b) + multiset(c)
  {
  }

  lemma {:induction false} ConsRight<T>(x: T, a: seq<T>, b: seq<T>, c: seq<T>)
    requires multiset(a) == multiset(b) + multiset(c)
    ensures multiset([x] + a) == multiset(b) + multiset([x] + c)
  {
  }

  /** A bound below every code still to place bounds every code of the merge. */
  lemma {:induction false} MergeFromAbove(codes: seq<u16>, k: nat, ones: seq<u16>, b: int)
    requires k <= |codes|
    requires forall i :: k <= i < |codes| ==> b <= codes[i]
    requires forall j :: 0 <= j < |ones| ==> b <= ones[j]
    ensures forall i :: 0 <= i < |MergeFrom(codes, k, ones)| ==> b <= MergeFrom(codes, k, ones)[i].code
    decreases |codes| - k + |ones|
  {
    if ones != [] && (k == |codes| || ones[0] <= codes[k]) {
      MergeFromAbove(codes, k, ones[1..], b);
    } else if k < |codes| {
      MergeFromAbove(codes, k + 1, ones, b);
    }
  }

  /** Merging two ascending lists gives a list in non-decreasing code order. */
  lemma {:induction false} MergeFromSorted(codes: seq<u16>, k: nat, ones: seq<u16>)
    requires k <= |codes| && Ascending(codes) && Ascending(ones)
    ensures CodesSorted(MergeFrom(codes, k, ones))
    decreases |codes| - k + |ones|
  {
    if ones != [] && (k == |codes| || ones[0] <= codes[k]) {
      MergeFromSorted(codes, k, ones[1..]);
      MergeFromAbove(codes, k, ones[1..], ones[0]);
    } else if k < |codes| {
      MergeFromSorted(codes, k + 1, ones);
      MergeFromAbove(codes, k + 1, ones, codes[k]);
    }
  }

  /**
   * Where a registered code equals a forced one, the forced mapping comes
   * first: of two neighbours with the same code, the first maps to glyph 1
   * and is one of the forced codes.
   */
  /** Of two neighbours with the same code, the first is one of `ones`, mapped to glyph 1. */
  predicate TiesForced(r: seq<Mapping>, ones: seq<u16>)
  {
    forall i :: 0 < i < |r| && r[i - 1].code == r[i].code ==> r[i - 1].glyph == 1 && r[i - 1].code in ones
  }

  lemma {:induction false} MergeFromTies(codes: seq<u16>, k: nat, ones: seq<u16>)
    requires k <= |codes| && Ascending(codes) && Ascending(ones)
    ensures TiesForced(MergeFrom(codes, k, ones), ones)
    decreases |codes| - k + |ones|
  {
    var r := MergeFrom(codes, k, ones);
    if ones != [] && (k == |codes| || ones[0] <= codes[k]) {
      MergeFromTies(codes, k, ones[1..]);
      var rest := MergeFrom(codes, k, ones[1..]);
      assert r == [Mapping(ones[0], 1)] + rest;
      forall i | 0 < i < |r| && r[i - 1].code == r[i].code
        ensures r[i - 1].glyph == 1 && r[i - 1].code in ones
      {
        if 1 < i {
          assert r[i - 1] == rest[i - 2] && r[i] == rest[i - 1];
        }
      }
    } else if k < |codes| {
      MergeFromTies(codes, k + 1, ones);
      var rest := MergeFrom(codes, k + 1, ones);
      assert r == [Mapping(codes[k], GlyphOf(k))] + rest;
      if |rest| > 0 {
        MergeFromAbove(codes, k + 1, ones, codes[k] + 1);
        assert r[0].code < r[1].code;
      }
      forall i | 0 < i < |r| && r[i - 1].code == r[i].code
        ensures r[i - 1].glyph == 1 && r[i - 1].code in ones
      {
        if 1 < i {
          assert r[i - 1] == rest[i - 2] && r[i] == rest[i - 1];
        }
      }
    }
  }

  /**
   * `glyphIndexMap` has one element per registered code and four more; it is
   * a permutation of the registered mappings (the k-th code to glyph k + 2)
   * and the forced codes to glyph 1, sorted by code, with a forced code
   * before a registered one equal to it.
   */
  lemma {:induction false} MergedMeans(codes: seq<u16>)
    requires Ascending(codes)
    ensures |Merged(codes)| == |codes| + 4
    ensures multiset(Merged(codes)) == multiset(Registered(codes, 0)) + multiset(Forced(ForcedCodes))
    ensures CodesSorted(Merged(codes))
    ensures TiesForced(Merged(codes), ForcedCodes)
  {
    assert Ascending(ForcedCodes);
    MergeFromPermutes(codes, 0, ForcedCodes);
    MergeFromSorted(codes, 0, ForcedCodes);
    MergeFromTies(codes, 0, ForcedCodes);
  }

  /** Every registered code and every forced code is in the merged list with its glyph. */
  lemma {:induction false} MergedHolds(codes: seq<u16>)
    ensures forall k :: 0 <= k < |codes| ==> Mapping(codes[k], GlyphOf(k)) in Merged(codes)
    ensures forall j :: 0 <= j < |ForcedCodes| ==> Mapping(ForcedCodes[j], 1) in Merged(codes)
  {
    MergeFromPermutes(codes, 0, ForcedCodes);
    var r, f := Registered(codes, 0), Forced(ForcedCodes);
    forall k | 0 <= k < |codes|
      ensures Mapping(codes[k], GlyphOf(k)) in Merged(codes)
    {
      assert r[k] in multiset(r);
      assert r[k] in multiset(Merged(codes));
    }
    forall j | 0 <= j < |ForcedCodes|
      ensures Mapping(ForcedCodes[j], 1) in Merged(codes)
    {
      assert f[j] in multiset(f);
      assert f[j] in multiset(Merged(codes));
    }
  }

  /** One turn of the merge loops: the merge so far grows by the head of what is left. */
  lemma {:induction false} MergeStep(done: seq<Mapping>, codes: seq<u16>, k: nat, ones: seq<u16>, whole: seq<Mapping>, x: Mapping, k': nat, ones': seq<u16>)
    requires k <= |codes| && k' <= |codes| && done + MergeFrom(codes, k, ones) == whole
    requires MergeFrom(codes, k, ones) == [x] + MergeFrom(codes, k', ones')
    ensures (done + [x]) + MergeFrom(codes, k', ones') == whole
  {
  }

  /** Writes x after the first codeIndex elements. */
  method Place(pairs: array<Mapping>, codeIndex: nat, x: Mapping)
    requires codeIndex < pairs.Length
    modifies pairs
    ensures pairs[..codeIndex + 1] == old(pairs[..codeIndex]) + [x]
  {
    pairs[codeIndex] := x;
    assert pairs[..codeIndex + 1] == pairs[..codeIndex] + [x];
  }

  /**
   * One inner loop of the merge: the registered codes below `bound`, each
   * with its glyph.  `bound` is the next forced code, or 0x10000 for the
   * last loop, which takes every code left.
   */
  method PlaceBelow(codes: seq<u16>, ones: seq<u16>, bound: int, pairs: array<Mapping>, k0: nat, start: nat, ghost whole: seq<Mapping>)
    returns (k: nat, codeIndex: nat)
    requires k0 <= |codes| && start <= pairs.Length == |whole|
    requires (ones == [] && bound == 0x1_0000) || (ones != [] && bound == ones[0])
    requires pairs[..start] + MergeFrom(codes, k0, ones) == whole
    modifies pairs
    ensures k0 <= k <= |codes| && codeIndex == start + (k - k0) && codeIndex <= pairs.Length
    ensures pairs[..codeIndex] + MergeFrom(codes, k, ones) == whole
    ensures k == |codes| || bound <= codes[k]
  {
    k, codeIndex := k0, start;
    while k < |codes| && codes[k] < bound
      invariant k0 <= k <= |codes| && codeIndex == start + (k - k0) && codeIndex <= pairs.Length
      invariant pairs[..codeIndex] + MergeFrom(codes, k, ones) == whole
      decreases |codes| - k
    {
      var x := Mapping(codes[k], GlyphOf(k));
      MergeStep(pairs[..codeIndex], codes, k, ones, whole, x, k + 1, ones);
      Place(pairs, codeIndex, x);
      k := k + 1;
      codeIndex := codeIndex + 1;
    }
  }

  /**
   * The merge loops of `BuildCmap`: before each forced code, the registered
   * codes smaller than it; then the rest.  The final length check never
   * throws.
   */
  method MergeCodes(codes: seq<u16>) returns (glyphIndexMap: seq<Mapping>)
    ensures glyphIndexMap == Merged(codes)
  {
    var pairs := new Mapping[|codes| + |ForcedCodes|](_ => Mapping(0, 0));
    var k := 0;
    var codeIndex := 0;
    for j := 0 to |ForcedCodes|
      invariant k <= |codes| && codeIndex == k + j
      invariant pairs[..codeIndex] + MergeFrom(codes, k, ForcedCodes[j..]) == Merged(codes)
    {
      var oneCode := ForcedCodes[j];
      k, codeIndex := PlaceBelow(codes, ForcedCodes[j..], oneCode, pairs, k, codeIndex, Merged(codes));
      var x := Mapping(oneCode, 1);
      assert ForcedCodes[j..][1..] == ForcedCodes[j + 1..];
      MergeStep(pairs[..codeIndex], codes, k, ForcedCodes[j..], Merged(codes), x, k, ForcedCodes[j + 1..]);
      Place(pairs, codeIndex, x);
      codeIndex := codeIndex + 1;
    }
    k, codeIndex := PlaceBelow(codes, [], 0x1_0000, pairs, k, codeIndex, Merged(codes));
    assert pairs[..] == pairs[..codeIndex];
    glyphIndexMap := pairs[..];
  }

  // ------------------------------------------------------------ segments

  /** The segment being built: `startCode`, `startGlyphIndex` and `endCode`. */
  datatype Run = Run(startCode: u16, startGlyph: u16, endCode: u16)

  /** `startGlyphIndex - startCode`, cast to `ushort` as the two branches do: the difference modulo 65536. */
  function IdDelta(startCode: u16, startGlyph: u16): u16
  {
    var delta := startGlyph as int - startCode as int;
    if delta >= 0 then delta else 0xFFFF + delta + 1
  }

  /** The segment a run becomes. */
  function Close(run: Run): Segment
  {
    Segment(run.startCode, run.endCode, IdDelta(run.startCode, run.startGlyph), 0)
  }

  /** The test that keeps a mapping in the current run. */
  predicate Extends(run: Run, m: Mapping)
  {
    m.code as int - run.startCode as int == m.glyph as int - run.startGlyph as int
  }

  function StartRun(m: Mapping): Run
  {
    Run(m.code, m.glyph, m.code)
  }

  /** The segments from the i-th mapping on, with `run` open. */
  function RunsFrom(m: seq<Mapping>, i: nat, run: Run): (r: seq<Segment>)
    ensures |r| > 0
    decreases |m| - i
  {
    if i >= |m| then [Close(run)]
    else if Extends(run, m[i]) then RunsFrom(m, i + 1, run.(endCode := m[i].code))
    else [Close(run)] + RunsFrom(m, i + 1, StartRun(m[i]))
  }

  /** The segment that ends every format-4 table. */
  const EndSegment: Segment := Segment(0xFFFF, 0xFFFF, 1, 0)

  /** The segments of `glyphIndexMap`, then the end segment. */
  function Segments(m: seq<Mapping>): seq<Segment>
  {
    (if |m| == 0 then [] else RunsFrom(m, 1, StartRun(m[0]))) + [EndSegment]
  }

  /** How a segment maps a code it covers: add idDelta modulo 65536. */
  function SegmentGlyph(s: Segment, code: u16): u16
  {
    (code + s.idDelta) % 0x1_0000
  }

  /** s covers the mapping's code and maps it to the mapping's glyph. */
  predicate Covers(s: Segment, x: Mapping)
  {
    s.startCode <= x.code <= s.endCode && SegmentGlyph(s, x.code) == x.glyph
  }

  predicate Covered(segments: seq<Segment>, x: Mapping)
  {
    exists s :: s in segments && Covers(s, x)
  }

  /** A code that keeps the run's difference is mapped to its glyph by the run's idDelta. */
  lemma {:induction false} DeltaMaps(run: Run, x: Mapping)
    requires Extends(run, x)
    ensures SegmentGlyph(Close(run), x.code) == x.glyph
  {
  }

  /** What an open run already holds: the mappings from lo to i - 1, all within its codes. */
  predicate RunHolds(m: seq<Mapping>, lo: nat, i: nat, run: Run)
    requires lo <= i <= |m|
  {
    && run.startCode <= run.endCode
    && (i > 0 ==> run.endCode == m[i - 1].code)
    && forall j :: lo <= j < i ==> run.startCode <= m[j].code <= run.endCode && Extends(run, m[j])
  }

  /** Every mapping from lo on is covered by a segment of the runs from i on. */
  lemma {:induction false} RunsCover(m: seq<Mapping>, lo: nat, i: nat, run: Run)
    requires 0 < i && lo <= i <= |m| && CodesSorted(m) && RunHolds(m, lo, i, run)
    ensures forall j :: lo <= j < |m| ==> Covered(RunsFrom(m, i, run), m[j])
    decreases |m| - i
  {
    var r := RunsFrom(m, i, run);
    if i == |m| {
      forall j | lo <= j < |m|
        ensures Covered(r, m[j])
      {
        DeltaMaps(run, m[j]);
        assert Close(run) in r;
      }
    } else if Extends(run, m[i]) {
      var run' := run.(endCode := m[i].code);
      assert m[i - 1].code <= m[i].code;
      RunsCover(m, lo, i + 1, run');
    } else {
      RunsCover(m, i, i + 1, StartRun(m[i]));
      forall j | lo <= j < |m|
        ensures Covered(r, m[j])
      {
        if j < i {
          DeltaMaps(run, m[j]);
          assert Close(run) in r;
        } else {
          var s :| s in RunsFrom(m, i + 1, StartRun(m[i])) && Covers(s, m[j]);
          assert s in r;
        }
      }
    }
  }

  /**
   * Cutting a sorted `glyphIndexMap` into segments loses no code: each
   * mapping lies in a segment (not the end segment) whose idDelta maps its
   * code to its glyph.  The list ends with the end segment.
   */
  lemma {:induction false} SegmentsCover(m: seq<Mapping>)
    requires CodesSorted(m)
    ensures var s := Segments(m);
            && |s| > 0 && s[|s| - 1] == EndSegment
            && forall j :: 0 <= j < |m| ==> Covered(s[..|s| - 1], m[j])
  {
    var s := Segments(m);
    if |m| > 0 {
      RunsCover(m, 0, 1, StartRun(m[0]));
      assert s[..|s| - 1] == RunsFrom(m, 1, StartRun(m[0]));
    }
  }

  /** One turn of the segment loop: the segments so far and the rest from the open run. */
  lemma {:induction false} SegmentStep(m: seq<Mapping>, i: nat, run: Run, done: seq<Segment>)
    requires 1 <= i < |m| && done + RunsFrom(m, i, run) == RunsFrom(m, 1, StartRun(m[0]))
    ensures Extends(run, m[i]) ==> done + RunsFrom(m, i + 1, run.(endCode := m[i].code)) == RunsFrom(m, 1, StartRun(m[0]))
    ensures !Extends(run, m[i]) ==> (done + [Close(run)]) + RunsFrom(m, i + 1, StartRun(m[i])) == RunsFrom(m, 1, StartRun(m[0]))
  {
  }

  /** After the last mapping: the open run closes and the end segment follows. */
  lemma {:induction false} SegmentsDone(m: seq<Mapping>, run: Run, done: seq<Segment>)
    requires 0 < |m| && done + RunsFrom(m, |m|, run) == RunsFrom(m, 1, StartRun(m[0]))
    ensures (done + [Close(run)]) + [EndSegment] == Segments(m)
  {
  }

  /** One turn of the segment loop: the run grows by the mapping or closes and a new one starts. */
  method SegmentTurn(m: seq<Mapping>, i: nat, run: Run, segments: seq<Segment>) returns (run': Run, segments': seq<Segment>)
    requires 1 <= i < |m| && segments + RunsFrom(m, i, run) == RunsFrom(m, 1, StartRun(m[0]))
    ensures segments' + RunsFrom(m, i + 1, run') == RunsFrom(m, 1, StartRun(m[0]))
  {
    SegmentStep(m, i, run, segments);
    var code: u16, glyphIndex: u16 := m[i].code, m[i].glyph;
    if code as int - run.startCode as int == glyphIndex as int - run.startGlyph as int {
      run' := run.(endCode := code);
      segments' := segments;
    } else {
      var delta := run.startGlyph as int - run.startCode as int;
      var uDelta := if delta >= 0 then delta else 0xFFFF + delta + 1;
      segments' := segments + [Segment(run.startCode, run.endCode, uDelta, 0)];
      run' := Run(code, glyphIndex, code);
    }
  }

  /**
   * The segment loop of `BuildCmap`; the run's `startCode`,
   * `startGlyphIndex` and `endCode` travel together as a `Run`.
   */
  method BuildSegments(glyphIndexMap: seq<Mapping>) returns (segments: seq<Segment>)
    ensures segments == Segments(glyphIndexMap)
  {
    segments := [];
    if |glyphIndexMap| > 0 {
      var run := Run(glyphIndexMap[0].code, glyphIndexMap[0].glyph, glyphIndexMap[0].code);
      for i := 1 to |glyphIndexMap|
        invariant segments + RunsFrom(glyphIndexMap, i, run) == RunsFrom(glyphIndexMap, 1, StartRun(glyphIndexMap[0]))
      {
        run, segments := SegmentTurn(glyphIndexMap, i, run, segments);
      }
      SegmentsDone(glyphIndexMap, run, segments);
      var delta := run.startGlyph as int - run.startCode as int;
      var uDelta := if delta >= 0 then delta else 0xFFFF + delta + 1;
      segments := segments + [Segment(run.startCode, run.endCode, uDelta, 0)];
    }
    segments := segments + [Segment(0xFFFF, 0xFFFF, 1, 0)];
  }

  // ------------------------------------------------------------ format 0

  /**
   * The format-0 loop from the k-th registered code on: code c ≤ 255 gets
   * `(byte)(first + k)`; the loop stops at the first code above 255.  As
   * written, `first` is 0: the sorted position, not the glyph.
   */
  function Filled(codes: seq<u16>, first: nat, k: nat, cells: ByteMap): ByteMap
    requires k <= |codes|
    decreases |codes| - k
  {
    if k == |codes| || codes[k] > 255 then cells
    else Filled(codes, first, k + 1, cells[codes[k] := (first + k) % 0x100])
  }

  /** The format-0 array as `BuildCmap` writes it: the sorted position of each code. */
  function IndexArrayAsWritten(codes: seq<u16>): ByteMap
  {
    Filled(codes, 0, 0, Zeros(256))
  }

  /** The format-0 array that agrees with the format-4 subtable: each code's glyph. */
  function IndexArray(codes: seq<u16>): ByteMap
  {
    Filled(codes, 2, 0, Zeros(256))
  }

  /** A code the loop reaches gets its value, whatever comes after it. */
  lemma {:induction false} FilledAt(codes: seq<u16>, first: nat, k: nat, cells: ByteMap, j: nat)
    requires Ascending(codes) && k <= j < |codes| && codes[j] <= 255
    ensures Filled(codes, first, k, cells)[codes[j]] == (first + j) % 0x100
    decreases |codes| - k
  {
    assert codes[k] <= codes[j];
    if k < j {
      FilledAt(codes, first, k + 1, cells[codes[k] := (first + k) % 0x100], j);
    } else {
      FilledElse(codes, first, k + 1, cells[codes[k] := (first + k) % 0x100], codes[j]);
    }
  }

  /** A cell whose code is not among the codes from k on keeps its value. */
  lemma {:induction false} FilledElse(codes: seq<u16>, first: nat, k: nat, cells: ByteMap, c: nat)
    requires k <= |codes| && c < 256 && forall j :: k <= j < |codes| ==> codes[j] != c
    ensures Filled(codes, first, k, cells)[c] == cells[c]
    decreases |codes| - k
  {
    if k < |codes| && codes[k] <= 255 {
      FilledElse(codes, first, k + 1, cells[codes[k] := (first + k) % 0x100], c);
    }
  }

  /**
   * As written, the format-0 array disagrees with format 4: with only the
   * space registered, format 4 maps it to glyph 2 and format 0 to glyph 0,
   * the missing-character glyph.
   */
  lemma FormatZeroAsWrittenDisagrees()
    ensures Mapping(0x20, 2) in Merged([0x20])
    ensures IndexArrayAsWritten([0x20])[0x20] == 0
  {
    FirstCodeDisagrees([0x20]);
  }

  /** The lowest registered code, when it fits a byte: format 4 maps it to glyph 2, the format-0 array as written to 0. */
  lemma {:induction false} FirstCodeDisagrees(codes: seq<u16>)
    requires Ascending(codes) && |codes| > 0 && codes[0] <= 255
    ensures Mapping(codes[0], 2) in Merged(codes)
    ensures IndexArrayAsWritten(codes)[codes[0]] == 0
  {
    MergedHolds(codes);
    FilledAt(codes, 0, 0, Zeros(256), 0);
  }

  /**
   * The corrected format-0 array maps each registered code up to 255 to the
   * glyph format 4 gives it (while that glyph fits a byte) and every other
   * code to glyph 0.
   */
  lemma {:induction false} IndexArrayAgrees(codes: seq<u16>)
    requires Ascending(codes)
    ensures forall k :: 0 <= k < |codes| && codes[k] <= 255 && k + 2 < 256 ==>
              IndexArray(codes)[codes[k]] == GlyphOf(k) && Mapping(codes[k], GlyphOf(k)) in Merged(codes)
    ensures forall c :: 0 <= c < 256 && c !in codes ==> IndexArray(codes)[c] == 0
  {
    MergedHolds(codes);
    forall k | 0 <= k < |codes| && codes[k] <= 255 && k + 2 < 256
      ensures IndexArray(codes)[codes[k]] == GlyphOf(k)
    {
      FilledAt(codes, 2, 0, Zeros(256), k);
    }
    forall c | 0 <= c < 256 && c !in codes
      ensures IndexArray(codes)[c] == 0
    {
      FilledElse(codes, 2, 0, Zeros(256), c);
    }
  }

  /**
   * The format-0 array as written: each registered code up to 255 holds its
   * sorted position (modulo 256) and every other code holds 0.
   */
  lemma {:induction false} IndexArrayAsWrittenMeans(codes: seq<u16>)
    requires Ascending(codes)
    ensures forall k :: 0 <= k < |codes| && codes[k] <= 255 ==> IndexArrayAsWritten(codes)[codes[k]] == k % 0x100
    ensures forall c :: 0 <= c < 256 && c !in codes ==> IndexArrayAsWritten(codes)[c] == 0
  {
    forall k | 0 <= k < |codes| && codes[k] <= 255
      ensures IndexArrayAsWritten(codes)[codes[k]] == k % 0x100
    {
      FilledAt(codes, 0, 0, Zeros(256), k);
    }
    forall c | 0 <= c < 256 && c !in codes
      ensures IndexArrayAsWritten(codes)[c] == 0
    {
      FilledElse(codes, 0, 0, Zeros(256), c);
    }
  }

  /** The format-0 loop of `BuildCmap`, with the value of the code at sorted position k being first + k. */
  method FillIndexArray(codes: seq<u16>, first: nat) returns (cells: ByteMap)
    ensures cells == Filled(codes, first, 0, Zeros(256))
  {
    var cellArray := new byte[256](_ => 0);
    assert cellArray[..] == Zeros(256);
    var k := 0;
    while k < |codes|
      invariant k <= |codes| && cellArray.Length == 256
      invariant Filled(codes, first, k, cellArray[..]) == Filled(codes, first, 0, Zeros(256))
      decreases |codes| - k
    {
      var code := codes[k];
      if code <= 255 {
        cellArray[code] := (first + k) % 0x100;
        k := k + 1;
      } else {
        break;
      }
    }
    cells := cellArray[..];
  }

  // ------------------------------------------------------------ the table

  /** The unicode format-4 subtable: language 0, the segments, no glyph index array. */
  function Unicode(codes: seq<u16>): Subtable
  {
    Format4(Header4(0, 0, 0, 0, 0, 0, 0), Segments(Merged(codes)), [])
  }

  /**
   * The `cmap` `BuildCmap` makes: (0, 3) and (3, 1) share the format-4
   * subtable, (1, 0) has the format-0 array as the code writes it.
   */
  function CmapOf(codes: seq<u16>): Cmap.CmapTable
  {
    Cmap.CmapTable(
      [Cmap.EncodingRecord(0, 3, 0), Cmap.EncodingRecord(1, 0, 1), Cmap.EncodingRecord(3, 1, 0)],
      [Unicode(codes), Format0(Header0(0, 0, 0), IndexArrayAsWritten(codes))])
  }

  /** `BuildCmap`. */
  method BuildCmap(codes: seq<u16>) returns (cmap: Cmap.CmapTable)
    ensures cmap == CmapOf(codes)
  {
    var glyphIndexMap := MergeCodes(codes);
    var segments := BuildSegments(glyphIndexMap);
    var unicode := Format4(Header4(0, 0, 0, 0, 0, 0, 0), segments, []);
    var zero := FillIndexArray(codes, 0);
    cmap := Cmap.CmapTable(
      [Cmap.EncodingRecord(0, 3, 0), Cmap.EncodingRecord(1, 0, 1), Cmap.EncodingRecord(3, 1, 0)],
      [unicode, Format0(Header0(0, 0, 0), zero)]);
  }

  /** Every mapping of a sorted `glyphIndexMap` is covered by one of its segments. */
  lemma {:induction false} SegmentsCoverAll(m: seq<Mapping>)
    requires CodesSorted(m)
    ensures forall x :: x in m ==> Covered(Segments(m), x)
  {
    SegmentsCover(m);
    var s := Segments(m);
    forall x | x in m
      ensures Covered(s, x)
    {
      var j :| 0 <= j < |m| && m[j] == x;
      var t :| t in s[..|s| - 1] && Covers(t, x);
      assert t in s;
    }
  }

  /**
   * The built `cmap`: every record points into the pool, the two Unicode
   * records share one subtable, and its segments map every registered code
   * to its glyph and the forced codes to glyph 1, while the format-0 array
   * holds each byte-sized code's sorted position and 0 elsewhere.
   */
  lemma {:induction false} CmapMaps(codes: seq<u16>)
    requires Ascending(codes)
    ensures var t := CmapOf(codes);
            && Cmap.Valid(t) && t.records[0].subtable == t.records[2].subtable
            && var s := t.pool[0].segments;
            && |s| > 0 && s[|s| - 1] == EndSegment
            && (forall k :: 0 <= k < |codes| ==> Covered(s, Mapping(codes[k], GlyphOf(k))))
            && (forall j :: 0 <= j < |ForcedCodes| ==> Covered(s, Mapping(ForcedCodes[j], 1)))
            && t.pool[1].Format0?
            && (forall k :: 0 <= k < |codes| && codes[k] <= 255 ==> t.pool[1].glyphs0[codes[k]] == k % 0x100)
            && (forall c :: 0 <= c < 256 && c !in codes ==> t.pool[1].glyphs0[c] == 0)
  {
    IndexArrayAsWrittenMeans(codes);
    var m := Merged(codes);
    assert Ascending(ForcedCodes);
    MergeFromSorted(codes, 0, ForcedCodes);
    MergedHolds(codes);
    SegmentsCover(m);
    SegmentsCoverAll(m);
  }
}
