/**
 * Table tags and table kinds (`TrueTypeFont.ToTableTag` and the creator
 * dictionary in `src/TrueType/TrueTypeFont.cs`).
 *
 * A tag is four ASCII bytes read as one big-endian 32-bit word, so the first
 * character lands in the most significant byte and comparing tags as numbers
 * compares their bytes left to right.  Which class a tag is parsed into is a
 * fixed map from tags to the `Kind` datatype; every other tag is `Unknown`.
 */
module FontTags {
  import opened Bytes
  import opened Wrappers

  /** The byte `Encoding.ASCII` writes for one character: itself below 128, '?' otherwise. */
  function AsciiByte(c: char): byte
  {
    if (c as int) < 0x80 then c as int else 0x3F
  }

  function AsciiBytes(s: string): (b: seq<byte>)
    ensures |b| == |s|
    ensures forall i :: 0 <= i < |s| ==> b[i] == AsciiByte(s[i])
  {
    seq(|s|, i requires 0 <= i < |s| => AsciiByte(s[i]))
  }

  /** The 32-bit word whose big-endian image is b. */
  function PackTag(b: seq<byte>): u32
    requires |b| == 4
  {
    U32At(b, 0)
  }

  /** Packing four bytes and writing the word back out gives the same four bytes. */
  lemma {:induction false} PackTagImage(b: seq<byte>)
    requires |b| == 4
    ensures BE32(PackTag(b)) == b
  {
    var v := PackTag(b);
    assert v / 0x1_0000 == U16At(b, 0);
    assert v % 0x1_0000 == U16At(b, 2);
    assert BE16(U16At(b, 0)) == b[..2];
    assert BE16(U16At(b, 2)) == b[2..];
  }

  /**
   * `ToTableTag`: the ASCII bytes of the tag, zero-padded to four, packed
   * big-endian.  A tag longer than four characters does not fit the
   * four-byte buffer and the encoder throws.
   */
  function ToTableTag(tag: string): (r: Result<u32>)
    ensures r.Ok? <==> |tag| <= 4
    ensures r.Err? ==> r.error == Argument
    ensures r.Ok? ==> BE32(r.value) == AsciiBytes(tag) + Zeros(4 - |tag|)
  {
    if |tag| > 4 then Err(Argument)
    else
      PackTagImage(AsciiBytes(tag) + Zeros(4 - |tag|));
      Ok(PackTag(AsciiBytes(tag) + Zeros(4 - |tag|)))
  }

  /** The tag of a four-character name. */
  function Tag4(s: string): u32
    requires |s| == 4
  {
    PackTag(AsciiBytes(s))
  }

  lemma {:induction false} Tag4IsTableTag(s: string)
    requires |s| == 4
    ensures ToTableTag(s) == Ok(Tag4(s))
  {
    assert AsciiBytes(s) + Zeros(0) == AsciiBytes(s);
  }

  // ------------------------------------------------------------ order

  /** a comes before b byte by byte: they agree up to some position, where a's byte is smaller. */
  predicate LexLess(a: seq<byte>, b: seq<byte>)
  {
    exists k :: 0 <= k < |a| && k < |b| && a[..k] == b[..k] && a[k] < b[k]
  }

  /** Ascending tag order is byte-lexicographic order of the four tag bytes. */
  lemma {:induction false} TagOrder(a: seq<byte>, b: seq<byte>)
    requires |a| == 4 && |b| == 4
    ensures PackTag(a) < PackTag(b) <==> LexLess(a, b)
  {
    if LexLess(a, b) {
      var k :| 0 <= k < 4 && a[..k] == b[..k] && a[k] < b[k];
      PrefixBytes(a, b, k);
    }
    if PackTag(a) < PackTag(b) {
      var k := FirstDifference(a, b);
      PrefixBytes(a, b, k);
      if b[k] < a[k] {
        assert false;
      }
      assert LexLess(a, b);
    }
  }

  /** Equal tags come from equal bytes. */
  lemma {:induction false} TagInjective(a: seq<byte>, b: seq<byte>)
    requires |a| == 4 && |b| == 4
    ensures PackTag(a) == PackTag(b) <==> a == b
  {
    if a != b {
      var k := FirstDifference(a, b);
      PrefixBytes(a, b, k);
    }
  }

  /** The first position where two different four-byte sequences disagree. */
  lemma {:induction false} FirstDifference(a: seq<byte>, b: seq<byte>) returns (k: nat)
    requires |a| == 4 && |b| == 4 && a != b
    ensures k < 4 && a[..k] == b[..k] && a[k] != b[k]
  {
    if a[0] != b[0] {
      k := 0;
    } else if a[1] != b[1] {
      k := 1;
    } else if a[2] != b[2] {
      k := 2;
    } else {
      k := 3;
    }
  }

  /** The words of two byte sequences that agree before position k compare as their bytes at k. */
  lemma {:induction false} PrefixBytes(a: seq<byte>, b: seq<byte>, k: nat)
    requires |a| == 4 && |b| == 4 && k < 4 && a[..k] == b[..k]
    ensures a[k] < b[k] ==> PackTag(a) < PackTag(b)
    ensures a[k] > b[k] ==> PackTag(a) > PackTag(b)
  {
    assert forall i :: 0 <= i < k ==> a[i] == a[..k][i] == b[..k][i] == b[i];
  }

  // ------------------------------------------------------------ kinds

  /** The table classes the parser knows, and the raw pass-through table for every other tag. */
  datatype Kind =
    | Head | Cmap | Hhea | Hmtx | Maxp | Loca | Glyf | Name | Post | Os2
    | Gasp | Eblc | Ebdt
    | Unknown(tag: u32)

  /** The four-character name of each known table. */
  function TagName(k: Kind): (s: string)
    requires !k.Unknown?
    ensures |s| == 4
  {
    match k
    case Head => "head"
    case Cmap => "cmap"
    case Hhea => "hhea"
    case Hmtx => "hmtx"
    case Maxp => "maxp"
    case Loca => "loca"
    case Glyf => "glyf"
    case Name => "name"
    case Post => "post"
    case Os2 => "OS/2"
    case Gasp => "gasp"
    case Eblc => "EBLC"
    case Ebdt => "EBDT"
  }

  /** The `Tag` a table of this kind reports: `ToTableTag` of its name, written out as a number. */
  function TagOf(k: Kind): u32
  {
    match k
    case Head => 0x6865_6164
    case Cmap => 0x636D_6170
    case Hhea => 0x6868_6561
    case Hmtx => 0x686D_7478
    case Maxp => 0x6D61_7870
    case Loca => 0x6C6F_6361
    case Glyf => 0x676C_7966
    case Name => 0x6E61_6D65
    case Post => 0x706F_7374
    case Os2 => 0x4F53_2F32
    case Gasp => 0x6761_7370
    case Eblc => 0x4542_4C43
    case Ebdt => 0x4542_4454
    case Unknown(t) => t
  }

  /** The numbers are the packed names. */
  lemma {:induction false} TagOfName(k: Kind)
    requires !k.Unknown?
    ensures ToTableTag(TagName(k)) == Ok(TagOf(k))
  {
    Tag4IsTableTag(TagName(k));
    var b := AsciiBytes(TagName(k));
    assert b == [TagName(k)[0] as int, TagName(k)[1] as int, TagName(k)[2] as int, TagName(k)[3] as int];
  }

  const Known: seq<Kind> := [Head, Cmap, Hhea, Hmtx, Maxp, Loca, Glyf, Name, Post, Os2, Gasp, Eblc, Ebdt]

  /** `CreateTableInstance`: the kind of table made for a directory entry's tag. */
  function KindOf(tag: u32): (k: Kind)
  {
    if tag == TagOf(Head) then Head
    else if tag == TagOf(Cmap) then Cmap
    else if tag == TagOf(Hhea) then Hhea
    else if tag == TagOf(Hmtx) then Hmtx
    else if tag == TagOf(Maxp) then Maxp
    else if tag == TagOf(Loca) then Loca
    else if tag == TagOf(Glyf) then Glyf
    else if tag == TagOf(Name) then Name
    else if tag == TagOf(Post) then Post
    else if tag == TagOf(Os2) then Os2
    else if tag == TagOf(Gasp) then Gasp
    else if tag == TagOf(Eblc) then Eblc
    else if tag == TagOf(Ebdt) then Ebdt
    else Unknown(tag)
  }

  /** The table made for a tag reports that same tag. */
  lemma {:induction false} KindOfKeepsTag(tag: u32)
    ensures TagOf(KindOf(tag)) == tag
  {
  }

  /** The thirteen dictionary keys are distinct, so building the dictionary does not throw. */
  lemma {:induction false} KnownTagsDistinct()
    ensures forall i, j :: 0 <= i < j < |Known| ==> TagOf(Known[i]) != TagOf(Known[j])
  {
  }

  /** Each known tag is parsed into its own class, and other tags into the raw table. */
  lemma {:induction false} KindOfTagOf(k: Kind)
    requires k in Known || KindOf(TagOf(k)).Unknown?
    ensures KindOf(TagOf(k)) == k
  {
    KnownTagsDistinct();
  }

  /** The tables each kind must find already read (`DeserializationDependencies`). */
  function DeserializationDependencies(k: Kind): seq<Kind>
  {
    match k
    case Glyf => [Loca]
    case Loca => [Head, Maxp]
    case Hmtx => [Hhea]
    case Ebdt => [Eblc]
    case _ => []
  }

  /** The tables each kind must find already validated (`ValidationDependencies`). */
  function ValidationDependencies(k: Kind): seq<Kind>
  {
    match k
    case Loca => [Glyf]
    case Hhea => [Hmtx]
    case Hmtx => [Glyf]
    case Os2 => [Glyf, Hhea, Head, Post, Cmap]
    case Maxp => [Glyf]
    case Eblc => [Ebdt]
    case Head => [Loca]
    case _ => []
  }

  /** A height for each kind in each dependency graph: every dependency sits strictly lower. */
  function DeserializationRank(k: Kind): nat
  {
    match k
    case Glyf => 2
    case Loca => 1
    case Hmtx => 1
    case Ebdt => 1
    case _ => 0
  }

  function ValidationRank(k: Kind): nat
  {
    match k
    case Os2 => 3
    case Head => 2
    case Hhea => 2
    case Loca => 1
    case Hmtx => 1
    case Maxp => 1
    case Eblc => 1
    case _ => 0
  }

  lemma {:induction false} DeserializationRanked(k: Kind, d: Kind)
    requires d in DeserializationDependencies(k)
    ensures DeserializationRank(d) < DeserializationRank(k)
  {
  }

  lemma {:induction false} ValidationRanked(k: Kind, d: Kind)
    requires d in ValidationDependencies(k)
    ensures ValidationRank(d) < ValidationRank(k)
  {
  }
}
