/**
 * What reading the `EBDT` table back gives for what `Serialize` wrote.
 * The bit-aligned reader stores a set pixel as 0x80 whatever value it
 * had, so a bitmap of format 2 or 7 comes back `Normal`: the same metrics
 * and the same set pixels, as 0x80.  The byte-aligned reader of formats 1
 * and 6 and the monospace reader of format 5, as written, give other
 * cells (`Reread`): formats 1 and 6 come back moved eight pixels right
 * when the rows are whole bytes, format 5 with each cell holding the bits
 * up to its own in its byte, of which the lowest is the pixel.  `Normal`
 * is what the intended readers give back.
 *
 * The index subtables that drive the reader are given as `Locator`s that
 * describe the table as it was laid out: each section's offset, and either
 * the offsets of its glyphs or their common image size and metrics.
 */
module EbdtRoundTrip {
  import opened Wrappers
  import opened Bytes
  import opened Ebdt
  import opened EbdtRead
  import BufferReaders
  import FixedTable
  import EbdtBits

  // ------------------------------------------------------------ normal forms

  /** The value the format's reader gives a set pixel. */
  function SetValue(b: Bitmap): byte
  {
    if b.Bitmap5? then 1 else 0x80
  }

  /** The bitmap as reading it back gives it: every set pixel holds the reader's value. */
  function Normal(b: Bitmap): (n: Bitmap)
    ensures Format(n) == Format(b) && n.pixels.w == b.pixels.w && n.pixels.h == b.pixels.h
  {
    var p := b.pixels;
    var q: Pixels := Grid(p.w, p.h, EbdtBits.Marks(p.cells, p.w, p.h, SetValue(b)));
    b.(pixels := q)
  }

  function Normals(s: seq<Bitmap>): (r: seq<Bitmap>)
    ensures |r| == |s|
  {
    seq(|s|, i requires 0 <= i < |s| => Normal(s[i]))
  }

  /** The first k sections, each normal. */
  function NormalSections(ss: seq<seq<Bitmap>>, k: nat): (r: seq<seq<Bitmap>>)
    requires k <= |ss|
    ensures |r| == k
  {
    seq(k, i requires 0 <= i < k => Normals(ss[i]))
  }

  /** The bitmap as the readers as written give it back. */
  function Reread(b: Bitmap): (n: Bitmap)
    ensures Format(n) == Format(b) && n.pixels.w == b.pixels.w && n.pixels.h == b.pixels.h
  {
    var p := b.pixels;
    var cells :=
      if b.Bitmap1? || b.Bitmap6? then EbdtBits.LineGridAsWritten(EbdtBits.ByteAligned(p.cells, p.w, p.h), 0, p.w, p.h)
      else if b.Bitmap5? then EbdtBits.MonoGridAsWritten(EbdtBits.BitAligned(p.cells, p.w, p.h), p.w, p.h)
      else EbdtBits.Marks(p.cells, p.w, p.h, 0x80);
    var q: Pixels := Grid(p.w, p.h, cells);
    b.(pixels := q)
  }

  function Rereads(s: seq<Bitmap>): (r: seq<Bitmap>)
    ensures |r| == |s|
  {
    seq(|s|, i requires 0 <= i < |s| => Reread(s[i]))
  }

  /** The first k sections, each as read back. */
  function RereadSections(ss: seq<seq<Bitmap>>, k: nat): (r: seq<seq<Bitmap>>)
    requires k <= |ss|
    ensures |r| == k
  {
    seq(k, i requires 0 <= i < k => Rereads(ss[i]))
  }

  /** Formats 2 and 7 come back exactly as the intended readers give them. */
  lemma {:induction false} RereadBitAligned(b: Bitmap)
    requires b.Bitmap2? || b.Bitmap7?
    ensures Reread(b) == Normal(b)
  {
  }

  /**
   * Formats 1 and 6 whose rows are whole bytes come back moved eight pixels
   * right: the first eight columns clear, the last eight lost.
   */
  lemma {:induction false} RereadByteAligned(b: Bitmap)
    requires (b.Bitmap1? || b.Bitmap6?) && b.pixels.w % 8 == 0
    ensures Reread(b).pixels.cells == EbdtBits.LateMarks(b.pixels.cells, b.pixels.w, b.pixels.h)
  {
    var p := b.pixels;
    var image := EbdtBits.ByteAligned(p.cells, p.w, p.h);
    assert image[0..0 + p.h * ((p.w + 7) / 8)] == image;
    EbdtBits.ByteAlignedAsWrittenAt(image, p.w, p.h, image, 0);
    EbdtBits.ByteAlignedAsWrittenRoundTrip(p.cells, p.w, p.h, image, 0);
  }

  /** Format 5 comes back with each cell's lowest bit the intended cell. */
  lemma {:induction false} RereadMonospace(b: Bitmap)
    requires b.Bitmap5?
    ensures EbdtBits.LowBits(Reread(b).pixels.cells, b.pixels.w, b.pixels.h) == Normal(b).pixels.cells
  {
    var p := b.pixels;
    var image := EbdtBits.BitAligned(p.cells, p.w, p.h);
    assert image[..|image|] == image;
    EbdtBits.MonoAsWrittenPrefix(image, image, p.w, p.h);
    EbdtBits.MonospaceAsWrittenRoundTrip(p.cells, p.w, p.h, image);
  }

  /** A bitmap whose metrics say how wide and how high its pixels are (format 5 has none). */
  predicate Consistent(b: Bitmap)
  {
    match b
    case Bitmap1(m, p) => m.width as int == p.w && m.height as int == p.h
    case Bitmap2(m, p) => m.width as int == p.w && m.height as int == p.h
    case Bitmap5(_) => true
    case Bitmap6(m, p) => m.width as int == p.w && m.height as int == p.h
    case Bitmap7(m, p) => m.width as int == p.w && m.height as int == p.h
  }

  /** Normalizing keeps the image, and so the size: the bytes do not tell set values apart. */
  lemma {:induction false} NormalImage(b: Bitmap)
    ensures Image(Normal(b)) == Image(b) && BitmapSize(Normal(b)) == BitmapSize(b)
  {
    var p, n := b.pixels, Normal(b).pixels;
    forall y | 0 <= y < p.h
      ensures EbdtBits.Row(n.cells, p.w, p.h, y) == EbdtBits.Row(p.cells, p.w, p.h, y)
    {
    }
    RowsAlike(p.cells, n.cells, p.w, p.h, p.h);
    LinesAlike(p.cells, n.cells, p.w, p.h, p.h);
  }

  /** Normalizing is idempotent, so a second round trip changes nothing, and it keeps the metrics. */
  lemma {:induction false} NormalNormal(b: Bitmap)
    ensures Normal(Normal(b)) == Normal(b) && Consistent(Normal(b)) == Consistent(b)
  {
    var p, n := b.pixels, Normal(b).pixels;
    var m := EbdtBits.Marks(n.cells, p.w, p.h, SetValue(b));
    forall x | 0 <= x < p.w
      ensures m[x] == n.cells[x]
    {
      assert forall y :: 0 <= y < p.h ==> m[x][y] == n.cells[x][y];
    }
    assert m == n.cells;
  }

  lemma {:induction false} RowsAlike(g: seq<seq<byte>>, e: seq<seq<byte>>, w: nat, h: nat, k: nat)
    requires EbdtBits.IsGrid(g, w, h) && EbdtBits.IsGrid(e, w, h) && k <= h
    requires forall y :: 0 <= y < h ==> EbdtBits.Row(e, w, h, y) == EbdtBits.Row(g, w, h, y)
    ensures EbdtBits.Rows(e, w, h, k) == EbdtBits.Rows(g, w, h, k)
  {
    if k > 0 {
      RowsAlike(g, e, w, h, k - 1);
    }
  }

  lemma {:induction false} LinesAlike(g: seq<seq<byte>>, e: seq<seq<byte>>, w: nat, h: nat, k: nat)
    requires EbdtBits.IsGrid(g, w, h) && EbdtBits.IsGrid(e, w, h) && k <= h
    requires forall y :: 0 <= y < h ==> EbdtBits.Row(e, w, h, y) == EbdtBits.Row(g, w, h, y)
    ensures EbdtBits.ByteAlignedRows(e, w, h, k) == EbdtBits.ByteAlignedRows(g, w, h, k)
  {
    if k > 0 {
      LinesAlike(g, e, w, h, k - 1);
    }
  }

  // ------------------------------------------------------------ one bitmap

  /** The two halves of an image lying in a buffer. */
  lemma {:induction false} Halves(buffer: seq<byte>, start: nat, a: seq<byte>, b: seq<byte>)
    requires start + |a + b| <= |buffer| && buffer[start..start + |a + b|] == a + b
    ensures buffer[start..start + |a|] == a
    ensures buffer[start + |a|..start + |a| + |b|] == b
  {
    assert buffer[start..start + |a + b|][..|a|] == buffer[start..start + |a|];
    assert buffer[start..start + |a + b|][|a|..] == buffer[start + |a|..start + |a| + |b|];
  }

  /** A bitmap of format 1, 2, 6 or 7 whose image lies at `start` reads back as `Reread` gives it. */
  lemma {:induction false} BitmapRoundTrip(b: Bitmap, buffer: seq<byte>, start: nat)
    requires !b.Bitmap5? && Consistent(b)
    requires start + |Image(b)| <= |buffer| && buffer[start..start + |Image(b)|] == Image(b)
    ensures BitmapRead(Format(b), BufferReaders.Reader(buffer, start)) == Ok(Reread(b))
  {
    Halves(buffer, start, MetricsImage(b), PixelsImage(b));
    BitmapHalves(b, buffer, start, MetricsSize(Format(b)));
  }

  /** The metrics image at `start`, then the pixel image right after it, read back as `Reread` gives the bitmap. */
  lemma {:induction false} BitmapHalves(b: Bitmap, buffer: seq<byte>, start: nat, k: nat)
    requires !b.Bitmap5? && Consistent(b) && k == MetricsSize(Format(b))
    requires start + k + |PixelsImage(b)| <= |buffer| && buffer[start..start + |MetricsImage(b)|] == MetricsImage(b)
    requires buffer[start + k..start + k + |PixelsImage(b)|] == PixelsImage(b)
    ensures BitmapRead(Format(b), BufferReaders.Reader(buffer, start)) == Ok(Reread(b))
  {
    var r := BufferReaders.Reader(buffer, start);
    var r' := BufferReaders.Reader(buffer, start + k);
    PixelsRoundTrip(b, buffer, start + k);
    MetricsRoundTrip(b, buffer, start);
    if b.Bitmap1? || b.Bitmap2? {
      SmallRead(b, r, r');
    } else {
      BigRead(b, r, r');
    }
  }

  /** Small metrics, then the pixels they size, read back as `Reread` gives a bitmap of format 1 or 2. */
  lemma {:induction false} SmallRead(b: Bitmap, r: Reader, r': Reader)
    requires (b.Bitmap1? || b.Bitmap2?) && Consistent(b) && ReadSmall(r) == Ok((b.small, r'))
    requires PixelsRead(Format(b), r', b.pixels.w as byte, b.pixels.h as byte) == Ok(Reread(b).pixels)
    ensures BitmapRead(Format(b), r) == Ok(Reread(b))
  {
  }

  /** Big metrics, then the pixels they size, read back as `Reread` gives a bitmap of format 6 or 7. */
  lemma {:induction false} BigRead(b: Bitmap, r: Reader, r': Reader)
    requires (b.Bitmap6? || b.Bitmap7?) && Consistent(b) && ReadBig(r) == Ok((b.big, r'))
    requires PixelsRead(Format(b), r', b.pixels.w as byte, b.pixels.h as byte) == Ok(Reread(b).pixels)
    ensures BitmapRead(Format(b), r) == Ok(Reread(b))
  {
  }

  /** The metrics half of a bitmap of format 1, 2, 6 or 7 reads back as it was. */
  lemma {:induction false} MetricsRoundTrip(b: Bitmap, buffer: seq<byte>, start: nat)
    requires !b.Bitmap5?
    requires start + |MetricsImage(b)| <= |buffer| && buffer[start..start + |MetricsImage(b)|] == MetricsImage(b)
    ensures b.Bitmap1? || b.Bitmap2? ==>
      ReadSmall(BufferReaders.Reader(buffer, start)) == Ok((b.small, BufferReaders.Reader(buffer, start + MetricsSize(Format(b)))))
    ensures b.Bitmap6? || b.Bitmap7? ==>
      ReadBig(BufferReaders.Reader(buffer, start)) == Ok((b.big, BufferReaders.Reader(buffer, start + MetricsSize(Format(b)))))
  {
    LayoutSizes();
    var r := BufferReaders.Reader(buffer, start);
    if b.Bitmap1? || b.Bitmap2? {
      FixedTable.RoundTrip(r, SmallLayout, SmallRow(b.small));
      assert SmallOf(SmallRow(b.small)) == b.small;
    } else {
      FixedTable.RoundTrip(r, BigLayout, BigRow(b.big));
      assert BigOf(BigRow(b.big)) == b.big;
    }
  }

  /** The pixel half of a bitmap of format 1, 2, 6 or 7 reads back as `Reread` gives it. */
  lemma {:induction false} PixelsRoundTrip(b: Bitmap, buffer: seq<byte>, at: nat)
    requires !b.Bitmap5? && b.pixels.w < 256 && b.pixels.h < 256
    requires at + |PixelsImage(b)| <= |buffer| && buffer[at..at + |PixelsImage(b)|] == PixelsImage(b)
    ensures PixelsRead(Format(b), BufferReaders.Reader(buffer, at), b.pixels.w as byte, b.pixels.h as byte).Ok?
    ensures PixelsRead(Format(b), BufferReaders.Reader(buffer, at), b.pixels.w as byte, b.pixels.h as byte).value
         == Reread(b).pixels
  {
    var p := b.pixels;
    if ByteAlignedFormat(Format(b)) {
      EbdtBits.ByteAlignedAsWrittenAt(PixelsImage(b), p.w, p.h, buffer, at);
    } else {
      EbdtBits.BitAlignedRoundTrip(p.cells, p.w, p.h, buffer, at);
    }
  }

  /**
   * A format-5 bitmap in a slot of `imageSize` bytes reads back as `Reread` gives it,
   * given the subtable's metrics of its width and height, and the reader
   * moves to the next slot.
   */
  lemma {:induction false} Bitmap5RoundTrip(b: Bitmap, m: BigMetrics, imageSize: u32, buffer: seq<byte>, start: nat)
    requires b.Bitmap5? && m.width as int == b.pixels.w && m.height as int == b.pixels.h
    requires imageSize < 0x8000_0000 && |Image(b)| <= imageSize as int && start + imageSize as int <= |buffer|
    requires buffer[start..start + |Image(b)|] == Image(b)
    ensures Bitmap5Read(BufferReaders.Reader(buffer, start), m, imageSize)
         == Ok((Reread(b), BufferReaders.Reader(buffer, start + imageSize as int)))
  {
    var p := b.pixels;
    var x := buffer[start..start + imageSize as int];
    assert x[..|Image(b)|] == buffer[start..start + |Image(b)|];
    assert Image(b) == EbdtBits.BitAligned(p.cells, p.w, p.h);
    EbdtBits.MonoAsWrittenPrefix(x, Image(b), p.w, p.h);
  }

  // ------------------------------------------------------------ where the images lie

  lemma {:induction false} SizePrefix(s: seq<Bitmap>, j: nat)
    requires j < |s|
    ensures SizeOf(s[..j + 1]) == SizeOf(s[..j]) + BitmapSize(s[j])
    ensures SizeOf(s[..j + 1]) <= SizeOf(s)
  {
    assert s[..j + 1][..j] == s[..j];
    assert s == s[..j + 1] + s[j + 1..];
    SizeOfConcat(s[..j + 1], s[j + 1..]);
  }

  /** What lies before `hi` is left as it was by a write from `hi` on. */
  lemma {:induction false} WrittenAbove(e: seq<byte>, at: nat, s: seq<byte>, lo: nat, hi: nat)
    requires at + |s| <= |e| && lo <= hi <= at
    ensures Overwrite(e, at, s)[lo..hi] == e[lo..hi]
  {
  }

  /** Image i of `images` lies in the buffer from `starts[i]`. */
  ghost predicate Lies(buffer: seq<byte>, images: seq<seq<byte>>, starts: seq<nat>)
  {
    && |images| == |starts|
    && forall i :: 0 <= i < |images| ==>
      starts[i] + |images[i]| <= |buffer| && buffer[starts[i]..starts[i] + |images[i]|] == images[i]
  }

  /** A write after every image already in place keeps them and adds its own. */
  lemma {:induction false} LiesSnoc(f: seq<byte>, e: seq<byte>, images': seq<seq<byte>>, starts': seq<nat>,
                                    images: seq<seq<byte>>, starts: seq<nat>, at: nat, s: seq<byte>)
    requires Lies(e, images, starts) && at + |s| <= |e| && f == Overwrite(e, at, s)
    requires forall i :: 0 <= i < |images| ==> starts[i] + |images[i]| <= at
    requires images' == images + [s] && starts' == starts + [at]
    ensures Lies(f, images', starts')
  {
    forall i | 0 <= i < |images'|
      ensures starts'[i] + |images'[i]| <= |f|
      ensures f[starts'[i]..starts'[i] + |images'[i]|] == images'[i]
    {
      if i < |images| {
        WrittenAbove(e, at, s, starts[i], starts[i] + |images[i]|);
      }
    }
  }

  /** A run of images in place, taken out of a longer one. */
  lemma {:induction false} LiesWithin(buffer: seq<byte>, images: seq<seq<byte>>, starts: seq<nat>, m: nat, n: nat)
    requires Lies(buffer, images, starts) && m <= n <= |images|
    ensures Lies(buffer, images[m..n], starts[m..n])
  {
    forall i | 0 <= i < n - m
      ensures starts[m..n][i] + |images[m..n][i]| <= |buffer|
      ensures buffer[starts[m..n][i]..starts[m..n][i] + |images[m..n][i]|] == images[m..n][i]
    {
      assert starts[m..n][i] == starts[m + i] && images[m..n][i] == images[m + i];
    }
  }

  /** f applied to every element of q. */
  function Map<A, B>(f: A -> B, q: seq<A>): (r: seq<B>)
    ensures |r| == |q|
  {
    seq(|q|, i requires 0 <= i < |q| => f(q[i]))
  }

  lemma {:induction false} MapSnoc<A, B>(f: A -> B, q: seq<A>)
    requires q != []
    ensures Map(f, q) == Map(f, q[..|q| - 1]) + [f(q[|q| - 1])]
  {
  }

  /** The images of the bitmaps of q. */
  function Images(q: seq<Bitmap>): (r: seq<seq<byte>>)
    ensures |r| == |q|
  {
    Map(Image, q)
  }

  /** Where `Place` from `at` puts each bitmap: after the sizes of the ones before it. */
  function Starts(at: nat, q: seq<Bitmap>): (r: seq<nat>)
    ensures |r| == |q|
  {
    seq(|q|, i requires 0 <= i < |q| => at + SizeOf(q[..i]))
  }

  /** The bitmaps of s lie one after another from `off`. */
  ghost predicate Holds(buffer: seq<byte>, off: nat, s: seq<Bitmap>)
  {
    off + SizeOf(s) <= |buffer| && Lies(buffer, Images(s), Starts(off, s))
  }

  /** Each image of q stops before the place of the next bitmap. */
  lemma {:induction false} StartsBelow(at: nat, q: seq<Bitmap>)
    ensures forall i :: 0 <= i < |q| ==> Starts(at, q)[i] + |Images(q)[i]| <= at + SizeOf(q)
  {
    forall i | 0 <= i < |q|
      ensures Starts(at, q)[i] + |Images(q)[i]| <= at + SizeOf(q)
    {
      SizePrefix(q, i);
      ImageFits(q[i]);
    }
  }

  lemma {:induction false} ImagesSnoc(q: seq<Bitmap>)
    requires q != []
    ensures Images(q) == Images(q[..|q| - 1]) + [Image(q[|q| - 1])]
  {
    MapSnoc(Image, q);
  }

  lemma {:induction false} StartsSnoc(at: nat, q: seq<Bitmap>)
    requires q != []
    ensures Starts(at, q) == Starts(at, q[..|q| - 1]) + [at + SizeOf(q[..|q| - 1])]
  {
    var p := q[..|q| - 1];
    assert forall i :: 0 <= i < |p| ==> p[..i] == q[..i];
  }

  /** The images of q lie where `Place` puts them. */
  lemma {:induction false} PlaceLies(d: seq<byte>, at: nat, q: seq<Bitmap>)
    requires at + SizeOf(q) <= |d|
    ensures Lies(Place(d, at, q), Images(q), Starts(at, q))
    decreases |q|
  {
    if q != [] {
      PlaceLies(d, at, q[..|q| - 1]);
      PlaceLiesStep(d, at, q, q[..|q| - 1], at + SizeOf(q[..|q| - 1]), Image(q[|q| - 1]));
    }
  }

  /** Placing the last bitmap s of q at `mid`, after the others, keeps theirs in place and adds its own. */
  lemma {:induction false} PlaceLiesStep(d: seq<byte>, at: nat, q: seq<Bitmap>, p: seq<Bitmap>, mid: nat, s: seq<byte>)
    requires at + SizeOf(q) <= |d| && q != [] && p == q[..|q| - 1]
    requires mid == at + SizeOf(p) && s == Image(q[|q| - 1])
    requires Lies(Place(d, at, p), Images(p), Starts(at, p))
    ensures Lies(Place(d, at, q), Images(q), Starts(at, q))
  {
    PlaceSnoc(d, at, q, p);
    LiesSnoc(Place(d, at, q), Place(d, at, p), Images(q), Starts(at, q), Images(p), Starts(at, p), mid, s);
  }

  /** How placing q extends placing all of q but its last bitmap. */
  lemma {:induction false} PlaceSnoc(d: seq<byte>, at: nat, q: seq<Bitmap>, p: seq<Bitmap>)
    requires at + SizeOf(q) <= |d| && q != [] && p == q[..|q| - 1]
    ensures at + SizeOf(p) <= |d|
    ensures at + SizeOf(p) + |Image(q[|q| - 1])| <= |Place(d, at, p)|
    ensures Place(d, at, q) == Overwrite(Place(d, at, p), at + SizeOf(p), Image(q[|q| - 1]))
    ensures Images(q) == Images(p) + [Image(q[|q| - 1])] && Starts(at, q) == Starts(at, p) + [at + SizeOf(p)]
    ensures forall i :: 0 <= i < |Images(p)| ==> Starts(at, p)[i] + |Images(p)[i]| <= at + SizeOf(p)
  {
    PlaceLast(d, at, q);
    ImagesSnoc(q);
    StartsSnoc(at, q);
    StartsBelow(at, p);
  }

  /** `Place` writes nothing below `at`. */
  lemma {:induction false} PlaceBelow(d: seq<byte>, at: nat, q: seq<Bitmap>)
    requires at + SizeOf(q) <= |d|
    ensures Place(d, at, q)[..at] == d[..at]
    decreases |q|
  {
    if q != [] {
      var p := q[..|q| - 1];
      PlaceLast(d, at, q);
      PlaceBelow(d, at, p);
      WrittenAbove(Place(d, at, p), at + SizeOf(p), Image(q[|q| - 1]), 0, at);
    }
  }

  lemma {:induction false} FlatConcat(a: seq<seq<Bitmap>>, b: seq<seq<Bitmap>>)
    ensures Flat(a + b) == Flat(a) + Flat(b)
    decreases |b|
  {
    if b == [] {
      assert a + b == a;
    } else {
      assert (a + b)[..|a + b| - 1] == a + b[..|b| - 1];
      FlatConcat(a, b[..|b| - 1]);
    }
  }

  /** The flattened sections are the ones before k, section k, then the ones after it. */
  lemma {:induction false} FlatAround(ss: seq<seq<Bitmap>>, k: nat)
    requires k < |ss|
    ensures Flat(ss) == Flat(ss[..k]) + ss[k] + Flat(ss[k + 1..])
  {
    assert ss == (ss[..k] + [ss[k]]) + ss[k + 1..];
    FlatConcat(ss[..k] + [ss[k]], ss[k + 1..]);
    FlatConcat(ss[..k], [ss[k]]);
    assert Flat([ss[k]]) == Flat([]) + ss[k];
  }

  /** The places and images of s amid a + s + z are its own, shifted by the size of a. */
  lemma {:induction false} ImagesInner(at: nat, a: seq<Bitmap>, s: seq<Bitmap>, z: seq<Bitmap>)
    ensures Images(a + s + z)[|a|..|a| + |s|] == Images(s)
    ensures Starts(at, a + s + z)[|a|..|a| + |s|] == Starts(at + SizeOf(a), s)
  {
    var q := a + s + z;
    forall i | 0 <= i < |s|
      ensures Starts(at, q)[|a| + i] == at + SizeOf(a) + SizeOf(s[..i])
    {
      assert q[..|a| + i] == a + s[..i];
      SizeOfConcat(a, s[..i]);
    }
  }

  /** In what `Serialize` leaves, section k lies from 4 plus the size of the sections before it. */
  lemma {:induction false} LaidHolds(d: seq<byte>, t: EbdtTable, k: nat)
    requires GetSize(t) <= |d| && k < |t.sections|
    ensures Holds(Laid(d, t), 4 + SizeOf(Flat(t.sections[..k])), t.sections[k])
    ensures 4 + SizeOf(Flat(t.sections[..k])) + SizeOf(t.sections[k]) <= GetSize(t)
  {
    var ss := t.sections;
    var a, s, z := Flat(ss[..k]), ss[k], Flat(ss[k + 1..]);
    FlatAround(ss, k);
    SizeOfConcat(a + s, z);
    SizeOfConcat(a, s);
    PlaceLies(Overwrite(d, 0, HeaderImage(t.header)), 4, Flat(ss));
    LiesWithin(Laid(d, t), Images(Flat(ss)), Starts(4, Flat(ss)), |a|, |a| + |s|);
    ImagesInner(4, a, s, z);
  }

  /** What `Serialize` leaves starts with the header. */
  lemma {:induction false} LaidHeader(d: seq<byte>, t: EbdtTable)
    requires GetSize(t) <= |d|
    ensures Laid(d, t)[..4] == HeaderImage(t.header)
  {
    var d1 := Overwrite(d, 0, HeaderImage(t.header));
    PlaceBelow(d1, 4, Flat(t.sections));
    assert d1[..4] == HeaderImage(t.header);
  }

  // ------------------------------------------------------------ one section

  /** A variable-metrics subtable for the section s that lies from `off`: one format and the offset of every glyph. */
  predicate VariableDescribes(loc: Locator, off: nat, s: seq<Bitmap>)
  {
    && loc.VariableLocator?
    && VariableFormat(loc.imageFormat)
    && loc.imageDataOffset as int == off
    && loc.numGlyphs == |s| && |loc.offsets| == |s| + 1
    && (forall i :: 0 <= i <= |s| ==> loc.offsets[i] as int == SizeOf(s[..i]))
    && (forall i :: 0 <= i < |s| ==> Format(s[i]) == loc.imageFormat && Consistent(s[i]))
  }

  /** A monospace subtable for the section s that lies from `off`: format-5 glyphs of one size and one width and height. */
  predicate MonospaceDescribes(loc: Locator, off: nat, s: seq<Bitmap>)
  {
    && loc.MonospaceLocator?
    && loc.imageFormat == 5
    && loc.imageDataOffset as int == off
    && loc.numGlyphs == |s|
    && forall i :: 0 <= i < |s| ==>
      && s[i].Bitmap5? && BitmapSize(s[i]) == loc.imageSize as int
      && loc.metrics.width as int == s[i].pixels.w && loc.metrics.height as int == s[i].pixels.h
  }

  predicate Describes(loc: Locator, off: nat, s: seq<Bitmap>)
  {
    VariableDescribes(loc, off, s) || MonospaceDescribes(loc, off, s)
  }

  lemma {:induction false} IntOf(u: u32)
    requires u < 0x8000_0000
    ensures Int(u) == u as int
  {
  }

  /** An image in the buffer is at the start of a window of a window at `off` that begins where it does. */
  lemma {:induction false} WindowHolds(buffer: seq<byte>, off: nat, from: nat, len: nat, img: seq<byte>)
    requires off + from + len <= |buffer| && |img| <= len && buffer[off + from..off + from + |img|] == img
    ensures buffer[off..][from..from + len][0..|img|] == img
  {
    assert buffer[off..][from..from + len][0..|img|] == buffer[off + from..off + from + |img|];
  }

  /** The same for the window at `off` alone. */
  lemma {:induction false} SuffixHolds(buffer: seq<byte>, off: nat, from: nat, img: seq<byte>)
    requires off + from + |img| <= |buffer| && buffer[off + from..off + from + |img|] == img
    ensures buffer[off..][from..from + |img|] == img
  {
    assert buffer[off..][from..from + |img|] == buffer[off + from..off + from + |img|];
  }

  /** The length of a glyph's window, when its offsets are in `int` range. */
  lemma {:induction false} DiffOf(next: int, from: int)
    requires 0 <= from <= next < 0x8000_0000
    ensures Diff(next, from) == next - from
  {
  }

  /** The image of glyph i of a section that holds: where the section's window puts it. */
  lemma {:induction false} HoldsAt(buffer: seq<byte>, off: nat, s: seq<Bitmap>, i: nat)
    requires Holds(buffer, off, s) && i < |s|
    ensures off + SizeOf(s[..i]) + |Image(s[i])| <= |buffer|
    ensures buffer[off + SizeOf(s[..i])..off + SizeOf(s[..i]) + |Image(s[i])|] == Image(s[i])
  {
    assert Images(s)[i] == Image(s[i]) && Starts(off, s)[i] == off + SizeOf(s[..i]);
  }

  /** The start of a longer window still holds an image that starts it. */
  lemma {:induction false} WindowStart(w: seq<byte>, from: nat, to: nat, img: seq<byte>)
    requires from + |img| <= to <= |w| && w[from..from + |img|] == img
    ensures w[from..to][0..|img|] == img
  {
    assert w[from..to][0..|img|] == w[from..from + |img|];
  }

  /** Glyph i of a variable-metrics section reads back as `Reread` gives it from the window between its offsets. */
  lemma {:induction false} GlyphOf(w: seq<byte>, format: u16, offsets: seq<u32>, i: nat, b: Bitmap)
    requires VariableFormat(format) && i + 1 < |offsets| && Format(b) == format && Consistent(b)
    requires offsets[i + 1] < 0x8000_0000 && offsets[i] as int + BitmapSize(b) == offsets[i + 1] as int <= |w|
    requires w[offsets[i]..offsets[i] as int + |Image(b)|] == Image(b)
    ensures GlyphAt(BufferReaders.Fresh(w), format, offsets, i) == Ok(Reread(b))
  {
    var from, next := offsets[i] as int, offsets[i + 1] as int;
    var g := w[from..next];
    WindowSlice(w, offsets[i], offsets[i + 1], g);
    WindowRead(w, from, next, g, b);
    GlyphAtOf(w, format, offsets, i, g, Reread(b));
  }

  /** Glyph i reads as its window does. */
  lemma {:induction false} GlyphAtOf(w: seq<byte>, format: u16, offsets: seq<u32>, i: nat, g: seq<byte>, b: Bitmap)
    requires VariableFormat(format) && i + 1 < |offsets|
    requires BufferReaders.SliceFromStartLength(BufferReaders.Fresh(w), Int(offsets[i]), Diff(Int(offsets[i + 1]), Int(offsets[i]))) == Ok(BufferReaders.Fresh(g))
    requires BitmapRead(format, BufferReaders.Fresh(g)) == Ok(b)
    ensures GlyphAt(BufferReaders.Fresh(w), format, offsets, i) == Ok(b)
  {
  }

  /** `SliceFromStartLength` between two offsets in range gives the window between them. */
  lemma {:induction false} WindowSlice(w: seq<byte>, a: u32, c: u32, g: seq<byte>)
    requires a <= c < 0x8000_0000 && c as int <= |w| && g == w[a..c]
    ensures BufferReaders.SliceFromStartLength(BufferReaders.Fresh(w), Int(a), Diff(Int(c), Int(a))) == Ok(BufferReaders.Fresh(g))
  {
    IntOf(a);
    IntOf(c);
    DiffOf(c as int, a as int);
  }

  /** The window between a glyph's offsets reads back as `Reread` gives the glyph. */
  lemma {:induction false} WindowRead(w: seq<byte>, from: nat, next: nat, g: seq<byte>, b: Bitmap)
    requires VariableFormat(Format(b)) && Consistent(b) && from + BitmapSize(b) == next <= |w| && g == w[from..next]
    requires w[from..from + |Image(b)|] == Image(b)
    ensures BitmapRead(Format(b), BufferReaders.Fresh(g)) == Ok(Reread(b))
  {
    ImageFits(b);
    WindowStart(w, from, next, Image(b));
    BitmapRoundTrip(b, g, 0);
  }

  /** What a variable-metrics subtable says about glyph i: its format, and the offsets around it. */
  lemma {:induction false} VariableFacts(buffer: seq<byte>, off: nat, loc: Locator, s: seq<Bitmap>, i: nat)
    requires off + SizeOf(s) <= |buffer| && off + SizeOf(s) < 0x8000_0000 && VariableDescribes(loc, off, s) && i < |s|
    ensures i + 1 < |loc.offsets| && Format(s[i]) == loc.imageFormat && Consistent(s[i])
    ensures loc.offsets[i + 1] < 0x8000_0000 && loc.offsets[i] as int == SizeOf(s[..i])
    ensures loc.offsets[i] as int + BitmapSize(s[i]) == loc.offsets[i + 1] as int <= |buffer[off..]|
  {
    SizePrefix(s, i);
  }

  /** The image of glyph i of a section that holds, in the window from `off`. */
  lemma {:induction false} ImageAt(buffer: seq<byte>, off: nat, s: seq<Bitmap>, i: nat)
    requires Holds(buffer, off, s) && i < |s|
    ensures SizeOf(s[..i]) + |Image(s[i])| <= |buffer[off..]|
    ensures buffer[off..][SizeOf(s[..i])..SizeOf(s[..i]) + |Image(s[i])|] == Image(s[i])
  {
    HoldsAt(buffer, off, s, i);
    SuffixHolds(buffer, off, SizeOf(s[..i]), Image(s[i]));
  }

  /** Glyph i of a variable-metrics section reads back as `Reread` gives it from the window of the section. */
  lemma {:induction false} VariableGlyph(buffer: seq<byte>, off: nat, loc: Locator, s: seq<Bitmap>, i: nat)
    requires Holds(buffer, off, s) && off + SizeOf(s) < 0x8000_0000 && VariableDescribes(loc, off, s) && i < |s|
    ensures i + 1 < |loc.offsets|
    ensures GlyphAt(BufferReaders.Fresh(buffer[off..]), loc.imageFormat, loc.offsets, i) == Ok(Reread(s[i]))
  {
    VariableSlot(buffer, off, loc, s, i);
    GlyphOf(buffer[off..], loc.imageFormat, loc.offsets, i, s[i]);
  }

  /** Glyph i of a variable-metrics section lies between its two offsets, in the window of the section. */
  lemma {:induction false} VariableSlot(buffer: seq<byte>, off: nat, loc: Locator, s: seq<Bitmap>, i: nat)
    requires Holds(buffer, off, s) && off + SizeOf(s) < 0x8000_0000 && VariableDescribes(loc, off, s) && i < |s|
    ensures i + 1 < |loc.offsets| && Format(s[i]) == loc.imageFormat && Consistent(s[i]) && VariableFormat(loc.imageFormat)
    ensures loc.offsets[i + 1] < 0x8000_0000 && loc.offsets[i] as int + BitmapSize(s[i]) == loc.offsets[i + 1] as int <= |buffer[off..]|
    ensures buffer[off..][loc.offsets[i]..loc.offsets[i] as int + |Image(s[i])|] == Image(s[i])
  {
    VariableFacts(buffer, off, loc, s, i);
    ImageAt(buffer, off, s, i);
  }

  /** The glyphs of a variable-metrics section read back as `Reread` gives them. */
  lemma {:induction false} VariableRoundTrip(buffer: seq<byte>, off: nat, loc: Locator, s: seq<Bitmap>)
    requires Holds(buffer, off, s) && off + SizeOf(s) < 0x8000_0000 && VariableDescribes(loc, off, s)
    ensures VariableGlyphs(BufferReaders.Fresh(buffer[off..]), loc.imageFormat, loc.offsets, |s|) == Ok(Rereads(s))
  {
    var f := GlyphReads(BufferReaders.Fresh(buffer[off..]), loc.imageFormat, loc.offsets);
    forall j | 0 <= j < |s|
      ensures f.requires(j) && f(j) == Ok(Rereads(s)[j])
    {
      VariableGlyph(buffer, off, loc, s, j);
    }
    GatherAll(f, Rereads(s), |s|);
    assert Rereads(s)[..|s|] == Rereads(s);
  }

  /** What the subtable and the layout say about glyph i of a monospace section. */
  lemma {:induction false} MonospaceFacts(buffer: seq<byte>, off: nat, loc: Locator, s: seq<Bitmap>, i: nat)
    requires Holds(buffer, off, s) && off + SizeOf(s) < 0x8000_0000 && MonospaceDescribes(loc, off, s) && i < |s|
    ensures s[i].Bitmap5? && loc.metrics.width as int == s[i].pixels.w && loc.metrics.height as int == s[i].pixels.h
    ensures loc.imageSize < 0x8000_0000 && BitmapSize(s[i]) == loc.imageSize as int
    ensures SizeOf(s[..i]) + loc.imageSize as int == SizeOf(s[..i + 1]) <= |buffer[off..]|
    ensures buffer[off..][SizeOf(s[..i])..SizeOf(s[..i]) + |Image(s[i])|] == Image(s[i])
  {
    SizePrefix(s, i);
    ImageAt(buffer, off, s, i);
  }

  /** One slot of a monospace section: the entry reads the bitmap in it back as `Reread` gives it and moves to the next slot. */
  lemma {:induction false} MonospaceSlot(w: seq<byte>, m: BigMetrics, size: u32, here: nat, next: nat, b: Bitmap)
    requires b.Bitmap5? && m.width as int == b.pixels.w && m.height as int == b.pixels.h
    requires size < 0x8000_0000 && BitmapSize(b) == size as int && here + size as int == next <= |w|
    requires w[here..here + |Image(b)|] == Image(b)
    ensures MonoEntry(m, size)(BufferReaders.Reader(w, here)) == Ok((Reread(b), BufferReaders.Reader(w, next)))
  {
    ImageFits(b);
    Bitmap5RoundTrip(b, m, size, w, here);
  }

  /** Where the slots of a section begin, and where the last one ends. */
  function Slots(s: seq<Bitmap>): (pos: seq<nat>)
    ensures |pos| == |s| + 1
  {
    seq(|s| + 1, j requires 0 <= j <= |s| => SizeOf(s[..j]))
  }

  lemma {:induction false} SlotsEnds(s: seq<Bitmap>)
    ensures Slots(s)[0] == 0 && Slots(s)[|s|] == SizeOf(s)
  {
    assert s[..0] == [] && s[..|s|] == s;
  }

  /** Glyph i of a monospace section reads back as `Reread` gives it from its slot, and the reader moves to the next slot. */
  lemma {:induction false} MonospaceGlyph(buffer: seq<byte>, off: nat, loc: Locator, s: seq<Bitmap>, i: nat)
    requires Holds(buffer, off, s) && off + SizeOf(s) < 0x8000_0000 && MonospaceDescribes(loc, off, s) && i < |s|
    ensures MonoEntry(loc.metrics, loc.imageSize)(BufferReaders.Reader(buffer[off..], SizeOf(s[..i])))
         == Ok((Reread(s[i]), BufferReaders.Reader(buffer[off..], SizeOf(s[..i + 1]))))
  {
    MonospaceFacts(buffer, off, loc, s, i);
    MonospaceSlot(buffer[off..], loc.metrics, loc.imageSize, SizeOf(s[..i]), SizeOf(s[..i + 1]), s[i]);
  }

  /** The glyphs of a monospace section read back as `Reread` gives them, slot after slot. */
  lemma {:induction false} MonospaceRoundTrip(buffer: seq<byte>, off: nat, loc: Locator, s: seq<Bitmap>)
    requires Holds(buffer, off, s) && off + SizeOf(s) < 0x8000_0000 && MonospaceDescribes(loc, off, s)
    ensures BufferReaders.ReadMany(BufferReaders.Fresh(buffer[off..]), |s|, MonoEntry(loc.metrics, loc.imageSize))
         == Ok((Rereads(s), BufferReaders.Reader(buffer[off..], SizeOf(s))))
  {
    var w, pos, e := buffer[off..], Slots(s), MonoEntry(loc.metrics, loc.imageSize);
    forall j | 0 <= j < |s|
      ensures e(BufferReaders.Reader(w, pos[j])) == Ok((Rereads(s)[j], BufferReaders.Reader(w, pos[j + 1])))
    {
      MonospaceGlyph(buffer, off, loc, s, j);
    }
    BufferReaders.ReadManyAt(w, pos, Rereads(s), e, 0);
    SlotsEnds(s);
    assert Rereads(s)[0..] == Rereads(s);
  }

  /** A section read through a subtable that describes it comes back as `Reread` gives it. */
  lemma {:induction false} SectionRoundTrip(buffer: seq<byte>, off: nat, loc: Locator, s: seq<Bitmap>)
    requires Holds(buffer, off, s) && off + SizeOf(s) < 0x8000_0000 && Describes(loc, off, s)
    ensures SectionRead(BufferReaders.Fresh(buffer), loc) == Ok(Rereads(s))
  {
    IntOf(loc.imageDataOffset);
    assert BufferReaders.SliceFromStart(BufferReaders.Fresh(buffer), Int(loc.imageDataOffset)) == Ok(BufferReaders.Fresh(buffer[off..]));
    if loc.VariableLocator? {
      VariableRoundTrip(buffer, off, loc, s);
    } else {
      MonospaceRoundTrip(buffer, off, loc, s);
    }
  }

  // ------------------------------------------------------------ the table

  /** Index subtables that describe the sections of t as `Serialize` lays them out, in order. */
  predicate DescribesTable(locs: seq<Locator>, t: EbdtTable)
  {
    && |locs| == |t.sections|
    && GetSize(t) < 0x8000_0000
    && forall k :: 0 <= k < |locs| ==> Describes(locs[k], 4 + SizeOf(Flat(t.sections[..k])), t.sections[k])
  }

  /** Section k of the table, read from the laid-out bytes through its subtable, comes back as `Reread` gives it. */
  lemma {:induction false} LaidSection(d: seq<byte>, t: EbdtTable, locs: seq<Locator>, k: nat)
    requires GetSize(t) <= |d| && DescribesTable(locs, t) && k < |locs|
    ensures SectionRead(BufferReaders.Fresh(Laid(d, t)), locs[k]) == Ok(Rereads(t.sections[k]))
  {
    var off := 4 + SizeOf(Flat(t.sections[..k]));
    LaidHolds(d, t, k);
    assert Describes(locs[k], off, t.sections[k]);
    SectionRoundTrip(Laid(d, t), off, locs[k], t.sections[k]);
  }

  /** Every section of the table read back from the laid-out bytes, in order, comes back as `Reread` gives it. */
  lemma {:induction false} LaidSections(d: seq<byte>, t: EbdtTable, locs: seq<Locator>)
    requires GetSize(t) <= |d| && DescribesTable(locs, t)
    ensures Sections(BufferReaders.Fresh(Laid(d, t)), locs, |locs|) == Ok(RereadSections(t.sections, |t.sections|))
  {
    var f := SectionReads(BufferReaders.Fresh(Laid(d, t)), locs);
    var xs := RereadSections(t.sections, |t.sections|);
    forall k | 0 <= k < |locs|
      ensures f.requires(k) && f(k) == Ok(xs[k])
    {
      LaidSection(d, t, locs, k);
    }
    GatherAll(f, xs, |locs|);
    assert xs[..|locs|] == xs;
  }

  /**
   * Reading back what `Serialize` wrote, through index subtables that
   * describe the layout, gives the table with every bitmap as `Reread` gives it.
   */
  lemma {:induction false} TableRoundTrip(d: seq<byte>, t: EbdtTable, locs: seq<Locator>)
    requires GetSize(t) <= |d| && t.header == EbdtHeader(2, 0) && DescribesTable(locs, t)
    ensures Parse(BufferReaders.Fresh(Laid(d, t)), locs)
         == Ok((EbdtTable(EbdtHeader(2, 0), RereadSections(t.sections, |t.sections|)), BufferReaders.Reader(Laid(d, t), 4)))
  {
    LaidHeaderRead(d, t);
    LaidSections(d, t, locs);
  }

  /** The header record at the start of the laid-out bytes reads back as version 2.0. */
  lemma {:induction false} LaidHeaderRead(d: seq<byte>, t: EbdtTable)
    requires GetSize(t) <= |d| && t.header == EbdtHeader(2, 0)
    ensures FixedTable.Deserialize(BufferReaders.Fresh(Laid(d, t)), HeaderLayout)
         == Ok((HeaderRow(t.header), BufferReaders.Reader(Laid(d, t), 4)))
    ensures HeaderRow(t.header)[0] == 2 && HeaderRow(t.header)[1] == 0
  {
    var w := Laid(d, t);
    LayoutSizes();
    LaidHeader(d, t);
    FixedTable.RoundTripFront(w, HeaderLayout, HeaderRow(t.header));
  }
}
