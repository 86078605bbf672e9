/**
 * The pixel packing of `EBDT` glyph bitmaps.  A bitmap is `byte[width,
 * height]`; a pixel is set when its cell is positive.  Packed bitmaps hold
 * one bit per pixel, most significant bit first, the rows from top to
 * bottom and each row from left to right.  Bit-aligned images run on
 * across rows; byte-aligned images start every row on a new byte.
 *
 * The loops keep the byte being assembled in a `byte` variable, so
 * `current <<= 1` is (2 * current) mod 256 and `current |= 1` on the
 * shifted (even) value adds 1; `current & 0x80` tests whether it is at
 * least 0x80.
 */
module EbdtBits {
  import opened Wrappers
  import opened Bytes
  import BufferReaders

  /** A bitmap `byte[w, h]`: column x holds the cells (x, 0) .. (x, h - 1). */
  predicate IsGrid(g: seq<seq<byte>>, w: nat, h: nat)
  {
    |g| == w && forall x :: 0 <= x < w ==> |g[x]| == h
  }

  /** 2^j for a bit position inside a byte. */
  function Shift(j: nat): nat
    requires j <= 8
  {
    [1, 2, 4, 8, 16, 32, 64, 128, 256][j]
  }

  /** Row y, left to right. */
  function Row(g: seq<seq<byte>>, w: nat, h: nat, y: nat): (row: seq<bool>)
    requires IsGrid(g, w, h) && y < h
    ensures |row| == w
  {
    seq(w, x requires 0 <= x < w => g[x][y] > 0)
  }

  /** Rows 0 .. n - 1 one after another: the order of the bit-aligned loops. */
  function Rows(g: seq<seq<byte>>, w: nat, h: nat, n: nat): (bits: seq<bool>)
    requires IsGrid(g, w, h) && n <= h
    ensures |bits| == n * w
  {
    if n == 0 then [] else Rows(g, w, h, n - 1) + Row(g, w, h, n - 1)
  }

  /** The bits as a binary number, the first one most significant. */
  function Num(bits: seq<bool>): nat
  {
    if bits == [] then 0 else 2 * Num(bits[..|bits| - 1]) + (if bits[|bits| - 1] then 1 else 0)
  }

  lemma {:induction false} NumBound(bits: seq<bool>)
    requires |bits| <= 8
    ensures Num(bits) < Shift(|bits|)
  {
    if bits != [] {
      NumBound(bits[..|bits| - 1]);
    }
  }

  /** Clear bits. */
  function Falses(n: nat): (s: seq<bool>)
    ensures |s| == n && forall i :: 0 <= i < n ==> !s[i]
  {
    seq(n, _ => false)
  }

  /** A group of at most 8 bits as the byte it fills, padded with clear low bits. */
  function ByteOf(bits: seq<bool>): (b: byte)
    requires |bits| <= 8
  {
    NumBound(bits + Falses(8 - |bits|));
    Num(bits + Falses(8 - |bits|))
  }

  /** The bits in bytes of eight, the last byte padded. */
  function Pack(bits: seq<bool>): (bytes: seq<byte>)
    ensures |bytes| == (|bits| + 7) / 8
    decreases |bits|
  {
    if bits == [] then []
    else if |bits| <= 8 then [ByteOf(bits)]
    else [ByteOf(bits[..8])] + Pack(bits[8..])
  }

  /** Packing a whole number of bytes and then the rest. */
  lemma {:induction false} PackAppend(a: seq<bool>, b: seq<bool>)
    requires |a| % 8 == 0
    ensures Pack(a + b) == Pack(a) + Pack(b)
    decreases |a|
  {
    if a == [] {
      assert a + b == b;
    } else if b == [] {
      assert a + b == a;
    } else {
      assert (a + b)[..8] == a[..8];
      assert (a + b)[8..] == a[8..] + b;
      PackAppend(a[8..], b);
      if |a| == 8 {
        assert a[8..] + b == b;
        assert a[..8] == a;
      }
    }
  }

  /** The bit-aligned image of a bitmap. */
  function BitAligned(g: seq<seq<byte>>, w: nat, h: nat): (bytes: seq<byte>)
    requires IsGrid(g, w, h)
    ensures |bytes| == (w * h + 7) / 8
  {
    Pack(Rows(g, w, h, h))
  }

  /** The byte-aligned image of rows 0 .. n - 1: each row packed on its own. */
  function ByteAlignedRows(g: seq<seq<byte>>, w: nat, h: nat, n: nat): (bytes: seq<byte>)
    requires IsGrid(g, w, h) && n <= h
    ensures |bytes| == n * ((w + 7) / 8)
  {
    if n == 0 then [] else ByteAlignedRows(g, w, h, n - 1) + Pack(Row(g, w, h, n - 1))
  }

  function ByteAligned(g: seq<seq<byte>>, w: nat, h: nat): (bytes: seq<byte>)
    requires IsGrid(g, w, h)
    ensures |bytes| == h * ((w + 7) / 8)
  {
    ByteAlignedRows(g, w, h, h)
  }

  /**
   * `GetSizeOfBitAlignedBitmap`: w * h rounded up to a multiple of 8.
   * The tables add it to byte counts, so it is 8 times the number of
   * bytes the image needs, and the image fits in it.
   */
  function BitAlignedSize(w: nat, h: nat): (n: nat)
    ensures (w * h + 7) / 8 <= n
  {
    Round8(w * h)
  }

  /** `GetSizeOfByteAlignedByLineBitmap`: w rounded up to a multiple of 8, times h. */
  function ByteAlignedSize(w: nat, h: nat): (n: nat)
    ensures h * ((w + 7) / 8) <= n
  {
    RoundedRows(w, h);
    Round8(w) * h
  }

  lemma {:induction false} RoundedRows(w: nat, h: nat)
    ensures h * ((w + 7) / 8) <= Round8(w) * h
  {
    var q := (w + 7) / 8;
    assert Round8(w) == 8 * q;
    assert Round8(w) * h == 8 * (q * h);
    assert h * q == q * h;
  }


  /** Pixel (x, y) is bit y * w + x of the rows. */
  lemma {:induction false} RowsBit(g: seq<seq<byte>>, w: nat, h: nat, n: nat, x: nat, y: nat)
    requires IsGrid(g, w, h) && n <= h && x < w && y < n
    ensures y * w + x < n * w && Rows(g, w, h, n)[y * w + x] == (g[x][y] > 0)
    decreases n
  {
    var before := Rows(g, w, h, n - 1);
    MulStep(n, w);
    if y == n - 1 {
      assert |before| == y * w;
      assert Rows(g, w, h, n)[y * w + x] == Row(g, w, h, y)[x];
    } else {
      RowsBit(g, w, h, n - 1, x, y);
      assert Rows(g, w, h, n)[y * w + x] == before[y * w + x];
    }
  }

  lemma {:induction false} MulStep(n: nat, w: nat)
    requires n > 0
    ensures n * w == (n - 1) * w + w
  {
  }

  // ------------------------------------------------------------ one bit at a time

  /** The last eight bits or fewer: what a byte shifted left once per bit still holds. */
  function Tail8(bits: seq<bool>): (t: seq<bool>)
    ensures |t| <= 8
  {
    if |bits| <= 8 then bits else bits[|bits| - 8..]
  }

  /** The bits that fill whole bytes. */
  function Whole(bits: seq<bool>): (p: seq<bool>)
    ensures |p| == |bits| / 8 * 8
  {
    bits[..|bits| / 8 * 8]
  }

  lemma {:induction false} NumSplit(a: seq<bool>, b: seq<bool>)
    requires |b| <= 8
    ensures Num(a + b) == Num(a) * Shift(|b|) + Num(b)
    decreases |b|
  {
    if b == [] {
      assert a + b == a;
    } else {
      var n := |b|;
      assert (a + b)[..|a + b| - 1] == a + b[..n - 1];
      NumSplit(a, b[..n - 1]);
      assert Shift(n) == 2 * Shift(n - 1);
    }
  }

  /** In a group of eight the first bit is worth 128. */
  lemma {:induction false} NumFirst(t: seq<bool>)
    requires |t| == 8
    ensures Num(t) == (if t[0] then 128 else 0) + Num(t[1..]) && Num(t[1..]) < 128
  {
    NumSplit([t[0]], t[1..]);
    assert [t[0]] + t[1..] == t;
    NumBound(t[1..]);
    assert [t[0]][..0] == [];
  }

  /** `current <<= 1`, then `current |= 1` for a set bit: the byte keeps the last eight bits. */
  lemma {:induction false} PushNum(bits: seq<bool>, bit: bool)
    ensures (2 * Num(Tail8(bits))) % 256 + (if bit then 1 else 0) == Num(Tail8(bits + [bit]))
  {
    var s := bits + [bit];
    assert s[..|s| - 1] == bits;
    if |bits| < 8 {
      PushShort(bits, bit);
    } else {
      PushFull(bits, bit);
    }
  }

  /** Fewer than eight bits so far: nothing is shifted out. */
  lemma {:induction false} PushShort(bits: seq<bool>, bit: bool)
    requires |bits| < 8
    ensures (2 * Num(bits)) % 256 + (if bit then 1 else 0) == Num(Tail8(bits + [bit]))
  {
    var s := bits + [bit];
    assert s[..|s| - 1] == bits;
    NumBound(bits);
    assert Shift(|bits|) <= 128;
  }

  /** Eight bits or more: the oldest of the last eight is shifted out. */
  lemma {:induction false} PushFull(bits: seq<bool>, bit: bool)
    requires |bits| >= 8
    ensures (2 * Num(Tail8(bits))) % 256 + (if bit then 1 else 0) == Num(Tail8(bits + [bit]))
  {
    var s := bits + [bit];
    var t := Tail8(bits);
    NumFirst(t);
    assert Tail8(s) == t[1..] + [bit];
    assert Tail8(s)[..7] == t[1..];
  }

  /** Bit j of a byte, as `current & 0x80` sees it after j times `current <<= 1`. */
  predicate TopBit(b: byte, j: nat)
  {
    Shifts(b, j) >= 0x80
  }

  /** Reading bit j of a packed group gives the group's bit j. */
  lemma {:induction false} GroupBit(t: seq<bool>, j: nat)
    requires |t| == 8 && j < 8
    ensures Num(t) < 256 && TopBit(Num(t), j) == t[j]
  {
    NumBound(t);
    ShiftsPad(t, j, Num(t));
    assert Tail8(t + Falses(j)) == t[j..] + Falses(j);
    NumFirst(t[j..] + Falses(j));
  }

  /** Bit k of the packed bits is bit k of the bits. */
  lemma {:induction false} PackBit(bits: seq<bool>, k: nat)
    requires k < |bits|
    ensures k / 8 < |Pack(bits)| && TopBit(Pack(bits)[k / 8], k % 8) == bits[k]
    decreases |bits|
  {
    if k < 8 {
      var p := if |bits| <= 8 then bits else bits[..8];
      assert Pack(bits)[0] == ByteOf(p);
      GroupBit(p + Falses(8 - |p|), k);
    } else {
      PackBit(bits[8..], k - 8);
      CursorSplit(1, k - 8);
      assert Pack(bits) == [ByteOf(bits[..8])] + Pack(bits[8..]);
      var j, q := k % 8, k / 8;
      assert j == (k - 8) % 8 && q == (k - 8) / 8 + 1;
      assert Pack(bits)[q] == Pack(bits[8..])[q - 1];
      assert bits[k] == bits[8..][k - 8];
    }
  }

  // ------------------------------------------------------------ writing

  /**
   * The state of the packing loops after the bits `done` of the current
   * run, whose bytes go after `base`: `current` holds the last bits shifted
   * in and every whole byte is written.
   */
  ghost predicate Packing(d0: seq<byte>, at: nat, base: seq<byte>, done: seq<bool>, current: int, d: seq<byte>)
  {
    at + |base| + |done| / 8 <= |d0| &&
    current == Num(Tail8(done)) &&
    d == Overwrite(d0, at, base + Pack(Whole(done)))
  }

  /** `current <<= 1` on a `byte`. */
  function Shl1(b: int): byte
  {
    (b * 2) % 256
  }

  /** The byte after one more `current <<= 1; if (set) current |= 1;`. */
  lemma {:induction false} NextByte(done: seq<bool>, current: int, bit: bool)
    requires current == Num(Tail8(done))
    ensures Shl1(current) + (if bit then 1 else 0) == Num(Tail8(done + [bit])) < 256
  {
    PushNum(done, bit);
    NumBound(Tail8(done + [bit]));
  }

  /** A pixel that does not complete a byte writes nothing. */
  lemma {:induction false} PushKeep(d0: seq<byte>, at: nat, base: seq<byte>, done: seq<bool>, current: int, d: seq<byte>, bit: bool)
    requires Packing(d0, at, base, done, current, d) && |done| % 8 != 7
    ensures Packing(d0, at, base, done + [bit], Num(Tail8(done + [bit])), d)
  {
    var n := |done|;
    assert (n + 1) / 8 == n / 8;
    assert (done + [bit])[..n / 8 * 8] == done[..n / 8 * 8];
  }

  /** The eighth pixel of a byte writes the byte. */
  lemma {:induction false} PushWrite(d0: seq<byte>, at: nat, base: seq<byte>, done: seq<bool>, current: int, d: seq<byte>, bit: bool)
    requires Packing(d0, at, base, done, current, d) && |done| % 8 == 7
    requires at + |base| + |done| / 8 < |d0|
    ensures Num(Tail8(done + [bit])) < 256
    ensures Packing(d0, at, base, done + [bit], Num(Tail8(done + [bit])),
      d[at + |base| + |done| / 8 := Num(Tail8(done + [bit]))])
  {
    var s := done + [bit];
    var t := Tail8(s);
    NumBound(t);
    assert Whole(s) == s;
    assert s == Whole(done) + t;
    PackAppend(Whole(done), t);
    assert t + Falses(0) == t;
    Bytes.Assoc(base, Pack(Whole(done)), Pack(t));
    OverwriteSnoc(d0, at, base + Pack(Whole(done)), Num(t));
  }

  /** One round of the padding loop shifts in a clear bit. */
  lemma {:induction false} PadStep(done: seq<bool>, pad: nat)
    ensures Shl1(Num(Tail8(done + Falses(pad)))) == Num(Tail8(done + Falses(pad + 1))) < 256
  {
    PushNum(done + Falses(pad), false);
    assert done + Falses(pad) + [false] == done + Falses(pad + 1);
    NumBound(Tail8(done + Falses(pad + 1)));
  }

  /** A run that ends on a byte boundary has all its bytes written. */
  lemma {:induction false} Flushed(d0: seq<byte>, at: nat, base: seq<byte>, done: seq<bool>, current: int, d: seq<byte>)
    requires Packing(d0, at, base, done, current, d) && |done| % 8 == 0
    ensures d == Overwrite(d0, at, base + Pack(done))
  {
    assert Whole(done) == done;
  }

  /**
   * The padding `do ... while` loop has shifted in `pad` clear bits up to
   * the byte boundary; the last byte goes at `(bitCursor >> 3) - 1`.
   */
  lemma {:induction false} Flush(d0: seq<byte>, at: nat, base: seq<byte>, done: seq<bool>, pad: nat, current: byte, d: seq<byte>, bitCursor: nat)
    requires at + |base| + (|done| + 7) / 8 <= |d0|
    requires d == Overwrite(d0, at, base + Pack(Whole(done)))
    requires |done| % 8 != 0 && |done| + pad == |done| / 8 * 8 + 8
    requires current == Num(Tail8(done + Falses(pad)))
    requires bitCursor == 8 * |base| + |done| + pad
    ensures 0 < bitCursor / 8 && at + bitCursor / 8 - 1 < |d0|
    ensures d[at + bitCursor / 8 - 1 := current] == Overwrite(d0, at, base + Pack(done))
  {
    PackLast(done, pad);
    Bytes.Assoc(base, Pack(Whole(done)), [current]);
    CursorSplit(|done| / 8, 7);
    CursorSplit(|base| + |done| / 8 + 1, 0);
    assert bitCursor == 8 * (|base| + |done| / 8 + 1) + 0;
    assert at + bitCursor / 8 - 1 == at + |base + Pack(Whole(done))|;
    OverwriteSnoc(d0, at, base + Pack(Whole(done)), current);
  }

  /** The last, partial byte of a run is its remaining bits padded with clear bits. */
  lemma {:induction false} PackLast(done: seq<bool>, pad: nat)
    requires |done| % 8 != 0 && |done| + pad == |done| / 8 * 8 + 8
    ensures Num(Tail8(done + Falses(pad))) < 256
    ensures Pack(done) == Pack(Whole(done)) + [Num(Tail8(done + Falses(pad)))]
  {
    var p := Whole(done);
    var rest := done[|p|..];
    assert done == p + rest;
    PackAppend(p, rest);
    assert Tail8(done + Falses(pad)) == rest + Falses(pad);
    NumBound(rest + Falses(pad));
    assert Pack(rest) == [ByteOf(rest)];
  }

  /** The bit cursor of a run that starts at byte a. */
  lemma {:induction false} CursorSplit(a: nat, b: nat)
    ensures (8 * a + b) / 8 == a + b / 8 && (8 * a + b) % 8 == b % 8
  {
  }

  /** The bytes that n bits take. */
  lemma {:induction false} ByteCount(n: nat)
    ensures (n + 7) / 8 == n / 8 + (if n % 8 == 0 then 0 else 1)
    ensures n == n / 8 * 8 + n % 8
  {
    assert n == 8 * (n / 8) + n % 8;
  }

  lemma {:induction false} RowPrefix(g: seq<seq<byte>>, w: nat, h: nat, y: nat, x: nat, before: seq<bool>)
    requires IsGrid(g, w, h) && y < h && x < w
    ensures before + Row(g, w, h, y)[..x + 1] == before + Row(g, w, h, y)[..x] + [g[x][y] > 0]
  {
    assert Row(g, w, h, y)[..x + 1] == Row(g, w, h, y)[..x] + [g[x][y] > 0];
  }

  /** One pixel: `current <<= 1; if (set) current |= 1;` and the byte written after its eighth bit. */
  method PushPixel(dest: array<byte>, at: nat, ghost d0: seq<byte>, ghost base: seq<byte>, ghost done: seq<bool>,
                   bitCursor: nat, current: byte, bit: bool)
    returns (bitCursor': nat, current': byte)
    requires dest.Length == |d0| && at + |base| + (|done| + 8) / 8 <= |d0|
    requires Packing(d0, at, base, done, current, dest[..]) && bitCursor == 8 * |base| + |done|
    modifies dest
    ensures Packing(d0, at, base, done + [bit], current', dest[..])
    ensures bitCursor' == bitCursor + 1
  {
    ghost var d := dest[..];
    CursorSplit(|base|, |done|);
    NextByte(done, current, bit);
    current' := Shl1(current);
    if bit {
      current' := current' + 1;
    }
    if bitCursor % 8 == 7 {
      PushWrite(d0, at, base, done, current, d, bit);
      dest[at + bitCursor / 8] := current';
      assert dest[..] == d[at + |base| + |done| / 8 := current'];
    } else {
      PushKeep(d0, at, base, done, current, d, bit);
    }
    bitCursor' := bitCursor + 1;
  }

  /**
   * The inner loop of both packers: the pixels of row y shifted in after
   * the bits `before` of the current run.
   */
  method PackRow(g: seq<seq<byte>>, w: nat, h: nat, y: nat, dest: array<byte>, at: nat,
                 ghost d0: seq<byte>, ghost base: seq<byte>, ghost before: seq<bool>,
                 bitCursor: nat, current: byte)
    returns (bitCursor': nat, current': byte)
    requires IsGrid(g, w, h) && y < h && dest.Length == |d0|
    requires at + |base| + (|before| + w + 7) / 8 <= |d0|
    requires Packing(d0, at, base, before, current, dest[..]) && bitCursor == 8 * |base| + |before|
    modifies dest
    ensures Packing(d0, at, base, before + Row(g, w, h, y), current', dest[..])
    ensures bitCursor' == bitCursor + w
  {
    ghost var done := before;
    bitCursor', current' := bitCursor, current;
    var x := 0;
    while x < w
      invariant x <= w
      invariant done == before + Row(g, w, h, y)[..x]
      invariant bitCursor' == 8 * |base| + |done|
      invariant Packing(d0, at, base, done, current', dest[..])
    {
      var bit := g[x][y] > 0;
      bitCursor', current' := PushPixel(dest, at, d0, base, done, bitCursor', current', bit);
      RowPrefix(g, w, h, y, x, before);
      done := done + [bit];
      x := x + 1;
    }
    assert Row(g, w, h, y)[..w] == Row(g, w, h, y);
  }

  /** The `do { current <<= 1; bitCursor++; } while ((bitCursor & 7) != 0)` loop. */
  method PadBits(ghost done: seq<bool>, bitCursor: nat, current: byte)
    returns (bitCursor': nat, current': byte, ghost pad: nat)
    requires bitCursor % 8 == |done| % 8 != 0
    ensures |done| + pad == |done| / 8 * 8 + 8 && bitCursor' == bitCursor + pad
    ensures current' == Shifts(current, pad)
    ensures bitCursor' % 8 == 0 && bitCursor < bitCursor' < bitCursor + 8
    ensures current' == Shifts(current, bitCursor' - bitCursor)
  {
    pad := 0;
    current' := Shl1(current);
    bitCursor' := bitCursor + 1;
    pad := pad + 1;
    PadLeft(|done|, bitCursor, pad);
    while bitCursor' % 8 != 0
      invariant 0 < pad <= 8 - |done| % 8 && bitCursor' == bitCursor + pad
      invariant current' == Shifts(current, pad)
      invariant (bitCursor' % 8 == 0) == (pad == 8 - |done| % 8)
      decreases 8 - pad
    {
      current' := Shl1(current');
      bitCursor' := bitCursor' + 1;
      pad := pad + 1;
      PadLeft(|done|, bitCursor, pad);
    }
    ByteCount(|done|);
  }

  /** k times `current <<= 1`. */
  function Shifts(c: byte, k: nat): byte
  {
    if k == 0 then c else Shl1(Shifts(c, k - 1))
  }

  /** The padding loop's clear bits, shifted in one by one. */
  lemma {:induction false} ShiftsPad(done: seq<bool>, pad: nat, c: byte)
    requires c == Num(Tail8(done))
    ensures Shifts(c, pad) == Num(Tail8(done + Falses(pad)))
  {
    if pad == 0 {
      assert done + Falses(0) == done;
    } else {
      ShiftsPad(done, pad - 1, c);
      PadStep(done, pad - 1);
    }
  }

  /** Where the padding loop stops: the bit cursor is on the same bit of its byte as the run. */
  lemma {:induction false} PadLeft(n: nat, c: nat, pad: nat)
    requires c % 8 == n % 8 && 0 < pad <= 8 - n % 8
    ensures ((c + pad) % 8 == 0) == (pad == 8 - n % 8)
  {
    CursorSplit(c / 8, n % 8 + pad);
    assert c + pad == 8 * (c / 8) + (n % 8 + pad);
  }

  /**
   * The padding block of both packers: clear bits up to the byte
   * boundary, then the last byte.
   */
  method PadRun(dest: array<byte>, at: nat, ghost d0: seq<byte>, ghost base: seq<byte>, ghost done: seq<bool>,
                bitCursor: nat, current: byte)
    returns (bitCursor': nat)
    requires dest.Length == |d0| && at + |base| + (|done| + 7) / 8 <= |d0|
    requires Packing(d0, at, base, done, current, dest[..]) && bitCursor == 8 * |base| + |done|
    modifies dest
    ensures dest[..] == Overwrite(d0, at, base + Pack(done))
    ensures bitCursor' == 8 * (|base| + |Pack(done)|)
  {
    bitCursor' := bitCursor;
    CursorSplit(|base|, |done|);
    if bitCursor' % 8 != 0 {
      ghost var pad;
      var current';
      bitCursor', current', pad := PadBits(done, bitCursor', current);
      ghost var d := dest[..];
      PadFlush(d0, at, base, done, current, d, bitCursor, pad, current');
      dest[at + bitCursor' / 8 - 1] := current';
      assert dest[..] == d[at + bitCursor' / 8 - 1 := current'];
    } else {
      EvenFlush(d0, at, base, done, current, dest[..], bitCursor);
    }
  }

  /** After the padding loop the last byte goes right after the whole ones. */
  lemma {:induction false} PadFlush(d0: seq<byte>, at: nat, base: seq<byte>, done: seq<bool>, current: byte, d: seq<byte>,
                                    bitCursor: nat, pad: nat, current': byte)
    requires at + |base| + (|done| + 7) / 8 <= |d0|
    requires Packing(d0, at, base, done, current, d) && bitCursor == 8 * |base| + |done|
    requires |done| % 8 != 0 && |done| + pad == |done| / 8 * 8 + 8 && current' == Shifts(current, pad)
    ensures 0 < (bitCursor + pad) / 8 && at + (bitCursor + pad) / 8 - 1 < |d0|
    ensures d[at + (bitCursor + pad) / 8 - 1 := current'] == Overwrite(d0, at, base + Pack(done))
    ensures bitCursor + pad == 8 * (|base| + |Pack(done)|)
  {
    ShiftsPad(done, pad, current);
    ByteCount(|done|);
    assert |Pack(done)| == |done| / 8 + 1;
    Flush(d0, at, base, done, pad, current', d, bitCursor + pad);
  }

  /** A run that ends on a byte boundary needs no padding. */
  lemma {:induction false} EvenFlush(d0: seq<byte>, at: nat, base: seq<byte>, done: seq<bool>, current: byte, d: seq<byte>, bitCursor: nat)
    requires Packing(d0, at, base, done, current, d) && bitCursor == 8 * |base| + |done| && |done| % 8 == 0
    ensures d == Overwrite(d0, at, base + Pack(done))
    ensures bitCursor == 8 * (|base| + |Pack(done)|)
  {
    ByteCount(|done|);
    Flushed(d0, at, base, done, current, d);
  }

  /** Row y ends within the bitmap. */
  lemma {:induction false} RowBelow(y: nat, w: nat, h: nat)
    requires y < h
    ensures y * w + w <= w * h && w * h == h * w
  {
    assert y * w + w == (y + 1) * w;
    assert (y + 1) * w <= h * w;
  }

  /** The bytes of row y of a bit-aligned image lie within the image. */
  lemma {:induction false} RowFits(y: nat, w: nat, h: nat, at: nat, n: nat)
    requires y < h && at + (w * h + 7) / 8 <= n
    ensures at + ((y + 1) * w + 7) / 8 <= n
  {
    RowBelow(y, w, h);
    assert (y + 1) * w == y * w + w;
    DivMono((y + 1) * w, w * h);
  }

  /**
   * `SerializeBitAlignedBitmap`: the pixels row by row into one stream of
   * bits, the last byte padded; the bytes go to `dest` from `at` on.
   */
  method SerializeBitAligned(g: seq<seq<byte>>, w: nat, h: nat, dest: array<byte>, at: nat)
    requires IsGrid(g, w, h) && at + (w * h + 7) / 8 <= dest.Length
    modifies dest
    ensures dest[..] == Overwrite(old(dest[..]), at, BitAligned(g, w, h))
  {
    ghost var d0 := dest[..];
    var bitCursor := 0;
    var current: byte := 0;
    Unwritten(d0, at);
    var y := 0;
    while y < h
      invariant y <= h && bitCursor == |Rows(g, w, h, y)|
      invariant Packing(d0, at, [], Rows(g, w, h, y), current, dest[..])
    {
      RowFits(y, w, h, at, dest.Length);
      bitCursor, current := BitRun(g, w, h, y, dest, at, d0, bitCursor, current);
      y := y + 1;
    }
    BitFinish(g, w, h, dest, at, d0, bitCursor, current);
  }

  /** The end of `SerializeBitAlignedBitmap`: the last byte of the stream, padded. */
  method BitFinish(g: seq<seq<byte>>, w: nat, h: nat, dest: array<byte>, at: nat, ghost d0: seq<byte>,
                   bitCursor: nat, current: byte)
    requires IsGrid(g, w, h) && at + (w * h + 7) / 8 <= dest.Length && dest.Length == |d0|
    requires Packing(d0, at, [], Rows(g, w, h, h), current, dest[..]) && bitCursor == |Rows(g, w, h, h)|
    modifies dest
    ensures dest[..] == Overwrite(d0, at, BitAligned(g, w, h))
  {
    var _ := PadRun(dest, at, d0, [], Rows(g, w, h, h), bitCursor, current);
    assert [] + Pack(Rows(g, w, h, h)) == BitAligned(g, w, h);
  }

  /** Nothing written yet: the destination as it was, with no whole byte and no bit in hand. */
  lemma {:induction false} Unwritten(d: seq<byte>, at: nat)
    requires at <= |d|
    ensures d == Overwrite(d, at, [] + Pack(Whole([]))) && Overwrite(d, at, []) == d
  {
    assert Whole([]) == [];
    assert d[..at] + [] + d[at..] == d;
  }

  /** One turn of `SerializeBitAlignedBitmap`: row y shifted in after the rows before it. */
  method BitRun(g: seq<seq<byte>>, w: nat, h: nat, y: nat, dest: array<byte>, at: nat, ghost d0: seq<byte>,
                bitCursor: nat, current: byte)
    returns (bitCursor': nat, current': byte)
    requires IsGrid(g, w, h) && y < h && dest.Length == |d0|
    requires at + (|Rows(g, w, h, y + 1)| + 7) / 8 <= |d0|
    requires Packing(d0, at, [], Rows(g, w, h, y), current, dest[..]) && bitCursor == |Rows(g, w, h, y)|
    modifies dest
    ensures Packing(d0, at, [], Rows(g, w, h, y + 1), current', dest[..])
    ensures bitCursor' == |Rows(g, w, h, y + 1)|
  {
    assert Rows(g, w, h, y + 1) == Rows(g, w, h, y) + Row(g, w, h, y);
    bitCursor', current' := PackRow(g, w, h, y, dest, at, d0, [], Rows(g, w, h, y), bitCursor, current);
  }

  /**
   * `SerializeByteAlignedByLineBitmap`: each row packed on its own and
   * padded to a whole byte; the bytes go to `dest` from `at` on.
   */
  method SerializeByteAligned(g: seq<seq<byte>>, w: nat, h: nat, dest: array<byte>, at: nat)
    requires IsGrid(g, w, h) && at + h * ((w + 7) / 8) <= dest.Length
    modifies dest
    ensures dest[..] == Overwrite(old(dest[..]), at, ByteAligned(g, w, h))
  {
    ghost var d0 := dest[..];
    var bitCursor := 0;
    Unwritten(d0, at);
    var y := 0;
    while y < h
      invariant y <= h && bitCursor == 8 * |ByteAlignedRows(g, w, h, y)|
      invariant at + |ByteAlignedRows(g, w, h, y)| <= dest.Length
      invariant dest[..] == Overwrite(d0, at, ByteAlignedRows(g, w, h, y))
    {
      RowsFit(y + 1, (w + 7) / 8, h, at, dest.Length);
      bitCursor := LineRun(g, w, h, y, dest, at, d0, bitCursor);
      y := y + 1;
    }
  }

  /** One turn of `SerializeByteAlignedByLineBitmap`: row y packed and padded after the rows before it. */
  method LineRun(g: seq<seq<byte>>, w: nat, h: nat, y: nat, dest: array<byte>, at: nat, ghost d0: seq<byte>, bitCursor: nat)
    returns (bitCursor': nat)
    requires IsGrid(g, w, h) && y < h && dest.Length == |d0|
    requires at + |ByteAlignedRows(g, w, h, y + 1)| <= |d0|
    requires dest[..] == Overwrite(d0, at, ByteAlignedRows(g, w, h, y)) && bitCursor == 8 * |ByteAlignedRows(g, w, h, y)|
    modifies dest
    ensures dest[..] == Overwrite(d0, at, ByteAlignedRows(g, w, h, y + 1))
    ensures bitCursor' == 8 * |ByteAlignedRows(g, w, h, y + 1)|
  {
    ghost var base := ByteAlignedRows(g, w, h, y);
    assert ByteAlignedRows(g, w, h, y + 1) == base + Pack(Row(g, w, h, y));
    var current: byte := 0;
    assert base + Pack(Whole([])) == base;
    var c;
    c, current := PackRow(g, w, h, y, dest, at, d0, base, [], bitCursor, current);
    assert [] + Row(g, w, h, y) == Row(g, w, h, y);
    bitCursor' := PadRun(dest, at, d0, base, Row(g, w, h, y), c, current);
  }

  /** The first y rows of s bytes each lie within the image of h rows. */
  lemma {:induction false} RowsFit(y: nat, s: nat, h: nat, at: nat, n: nat)
    requires y <= h && at + h * s <= n
    ensures at + y * s <= n
  {
    assert y * s <= h * s;
  }

  // ------------------------------------------------------------ reading

  /** The cells of a `byte[w, h]` as columns. */
  function GridOf(a: array2<byte>): (g: seq<seq<byte>>)
    reads a
    ensures IsGrid(g, a.Length0, a.Length1)
  {
    seq(a.Length0, x requires 0 <= x < a.Length0 reads a =>
      seq(a.Length1, y requires 0 <= y < a.Length1 reads a => a[x, y]))
  }

  /** Bit k of the bits packed from byte `start` on, most significant first; clear past the end. */
  predicate StreamBit(buffer: seq<byte>, start: nat, k: nat)
  {
    start + k / 8 < |buffer| && TopBit(buffer[start + k / 8], k % 8)
  }

  /** A cell as the readers of the shared helpers store it: `current & 0x80`. */
  function Mark(on: bool): byte
  {
    if on then 0x80 else 0
  }

  /** The cells with every set pixel as `v`. */
  function Marks(g: seq<seq<byte>>, w: nat, h: nat, v: byte): (m: seq<seq<byte>>)
    requires IsGrid(g, w, h)
    ensures IsGrid(m, w, h)
  {
    seq(w, x requires 0 <= x < w => seq(h, y requires 0 <= y < h => if g[x][y] > 0 then v else 0))
  }

  /** Pixel (x, y) of a bit-aligned image w pixels wide. */
  function BitCell(buffer: seq<byte>, start: nat, w: nat, x: nat, y: nat): byte
  {
    Mark(StreamBit(buffer, start, y * w + x))
  }

  /** Pixel (x, y) of a byte-aligned image whose rows take `stride` bytes. */
  function LineCell(buffer: seq<byte>, start: nat, stride: nat, x: nat, y: nat): byte
  {
    Mark(StreamBit(buffer, start + y * stride, x))
  }

  /** Pixel (x, y) as the byte-aligned reader as written loads it: its rows take `stride` bytes. */
  function LineCellAsWritten(buffer: seq<byte>, start: nat, stride: nat, x: nat, y: nat): byte
  {
    if x < 8 then 0 else Mark(StreamBit(buffer, start + y * stride, x - 8))
  }

  /** The bitmap a bit-aligned image from `start` decodes to. */
  function BitGrid(buffer: seq<byte>, start: nat, w: nat, h: nat): (g: seq<seq<byte>>)
    ensures IsGrid(g, w, h)
  {
    seq(w, x requires 0 <= x < w => seq(h, y requires 0 <= y < h => BitCell(buffer, start, w, x, y)))
  }

  /** The bitmap a byte-aligned image from `start` decodes to: row y starts at its own byte. */
  function LineGrid(buffer: seq<byte>, start: nat, w: nat, h: nat): (g: seq<seq<byte>>)
    ensures IsGrid(g, w, h)
  {
    seq(w, x requires 0 <= x < w => seq(h, y requires 0 <= y < h => LineCell(buffer, start, (w + 7) / 8, x, y)))
  }

  /**
   * `DeserializeBitmapBitAligned`: (w * h + 7) / 8 bytes read one at a
   * time; the first read past the end fails.
   */
  function BitAlignedRead(r: BufferReaders.Reader, w: nat, h: nat): (res: Result<(seq<seq<byte>>, BufferReaders.Reader)>)
    ensures res.Ok? ==> IsGrid(res.value.0, w, h)
  {
    var n := (w * h + 7) / 8;
    if n > 0 && BufferReaders.Remains(r) < n then Err(IndexOutOfRange)
    else Ok((BitGrid(r.buffer, r.cursor, w, h), BufferReaders.Advance(r, n)))
  }

  /** The byte-aligned reader with the read before each byte's first pixel: (w + 7) / 8 bytes a row. */
  function ByteAlignedRead(r: BufferReaders.Reader, w: nat, h: nat): (res: Result<(seq<seq<byte>>, BufferReaders.Reader)>)
    ensures res.Ok? ==> IsGrid(res.value.0, w, h)
  {
    var n := h * ((w + 7) / 8);
    if n > 0 && BufferReaders.Remains(r) < n then Err(IndexOutOfRange)
    else Ok((LineGrid(r.buffer, r.cursor, w, h), BufferReaders.Advance(r, n)))
  }

  /**
   * `DeserializeBitmapByteAlignedByLine` as written: each row starts with
   * `current` clear and reads a byte only after every eighth pixel, so the
   * first eight pixels of a row read as clear, pixel x >= 8 shows bit
   * x - 8 of the row, and a row takes w / 8 bytes.
   */
  function ByteAlignedReadAsWritten(r: BufferReaders.Reader, w: nat, h: nat): (res: Result<(seq<seq<byte>>, BufferReaders.Reader)>)
    ensures res.Ok? ==> IsGrid(res.value.0, w, h)
  {
    var n := h * (w / 8);
    if n > 0 && BufferReaders.Remains(r) < n then Err(IndexOutOfRange)
    else Ok((LineGridAsWritten(r.buffer, r.cursor, w, h), BufferReaders.Advance(r, n)))
  }

  /** The bitmap the byte-aligned reader as written makes of the bytes from `start`. */
  function LineGridAsWritten(buffer: seq<byte>, start: nat, w: nat, h: nat): (g: seq<seq<byte>>)
    ensures IsGrid(g, w, h)
  {
    seq(w, x requires 0 <= x < w => seq(h, y requires 0 <= y < h => LineCellAsWritten(buffer, start, w / 8, x, y)))
  }

  /** A 1 x 1 bitmap with its pixel set is the byte 0x80 in either layout. */
  lemma OnePixelImage()
    ensures ByteAligned([[1]], 1, 1) == [0x80] && BitAligned([[1]], 1, 1) == [0x80]
  {
    var g: seq<seq<byte>> := [[1]];
    assert Row(g, 1, 1, 0) == [true];
    TopOnly();
    assert Pack([true]) == [0x80];
    assert ByteAlignedRows(g, 1, 1, 1) == [] + Pack([true]);
    assert ByteAligned(g, 1, 1) == [0x80];
    assert Rows(g, 1, 1, 1) == [] + [true] == [true];
    assert BitAligned(g, 1, 1) == [0x80];
  }

  /** The image of that bitmap comes back from the byte-aligned reader as written with the pixel clear. */
  lemma ByteAlignedAsWrittenLosesPixel()
    ensures ByteAlignedReadAsWritten(BufferReaders.Fresh(ByteAligned([[1]], 1, 1)), 1, 1)
         == Ok(([[0]], BufferReaders.Fresh([0x80])))
  {
    OnePixelImage();
    var r := BufferReaders.Fresh([0x80]);
    var g := LineGridAsWritten(r.buffer, r.cursor, 1, 1);
    assert g[0] == [0];
    assert g == [[0]];
    assert BufferReaders.Advance(r, 0) == r;
    assert ByteAlignedReadAsWritten(r, 1, 1) == Ok((g, r));
  }

  /** The corrected reader brings the pixel back. */
  lemma ByteAlignedKeepsPixel()
    ensures ByteAlignedRead(BufferReaders.Fresh(ByteAligned([[1]], 1, 1)), 1, 1)
         == Ok(([[0x80]], BufferReaders.Reader([0x80], 1)))
  {
    OnePixelImage();
    TopOnly();
    var g := LineGrid([0x80], 0, 1, 1);
    assert StreamBit([0x80], 0, 0);
    assert g[0] == [0x80];
    assert g == [[0x80]];
  }

  /** A lone first bit packs to 0x80. */
  lemma TopOnly()
    ensures ByteOf([true]) == 0x80
  {
    var t := [true] + Falses(7);
    assert t[..1] == [true] && Num([true]) == 1;
    assert t[..2] == t[..1] + [false] && Num(t[..2]) == 2;
    assert t[..3] == t[..2] + [false] && Num(t[..3]) == 4;
    assert t[..4] == t[..3] + [false] && Num(t[..4]) == 8;
    assert t[..5] == t[..4] + [false] && Num(t[..5]) == 16;
    assert t[..6] == t[..5] + [false] && Num(t[..6]) == 32;
    assert t[..7] == t[..6] + [false] && Num(t[..7]) == 64;
    assert t == t[..7] + [false] && Num(t) == 128;
  }

  /** The state of a reading loop at bit k of the stream from `start`: the bytes read so far and the byte in hand. */
  ghost predicate Streaming(buffer: seq<byte>, start: nat, k: nat, reader: BufferReaders.Reader, current: byte)
  {
    reader == BufferReaders.Reader(buffer, start + (k + 7) / 8) &&
    (k > 0 ==> start + (k + 7) / 8 <= |buffer|) &&
    (k % 8 != 0 ==> start + k / 8 < |buffer| && current == Shifts(buffer[start + k / 8], k % 8))
  }

  /** The state just before pixel k is taken from `current`: its byte has been read. */
  ghost predicate Loaded(buffer: seq<byte>, start: nat, k: nat, reader: BufferReaders.Reader, current: byte)
  {
    reader == BufferReaders.Reader(buffer, start + k / 8 + 1) &&
    start + k / 8 < |buffer| && current == Shifts(buffer[start + k / 8], k % 8)
  }

  /** Mid-byte, the byte in hand is already loaded. */
  lemma {:induction false} InHand(buffer: seq<byte>, start: nat, k: nat, reader: BufferReaders.Reader, current: byte)
    requires Streaming(buffer, start, k, reader, current) && k % 8 != 0
    ensures Loaded(buffer, start, k, reader, current)
  {
    ByteCount(k);
  }

  /** At a byte boundary the next byte is read. */
  lemma {:induction false} ReadNext(buffer: seq<byte>, start: nat, k: nat, reader: BufferReaders.Reader, current: byte)
    requires Streaming(buffer, start, k, reader, current) && k % 8 == 0
    requires BufferReaders.ReadUnaligned(reader, 1).Ok?
    ensures var v := BufferReaders.ReadUnaligned(reader, 1).value; Loaded(buffer, start, k, v.1, v.0[0])
  {
    ByteCount(k);
  }

  /** A read that fails at a byte boundary of the row shows the stream ends before the row does. */
  lemma {:induction false} ReadShort(buffer: seq<byte>, start: nat, k: nat, reader: BufferReaders.Reader, current: byte, end: nat)
    requires Streaming(buffer, start, k, reader, current) && k % 8 == 0 && k < end
    requires BufferReaders.ReadUnaligned(reader, 1).Err?
    ensures |buffer| < start + (end + 7) / 8
  {
    ByteCount(k);
    ByteCount(end);
  }

  /** `current & 0x80` on the loaded byte is the pixel's bit; `current <<= 1` moves to the next. */
  lemma {:induction false} TakeBit(buffer: seq<byte>, start: nat, k: nat, reader: BufferReaders.Reader, current: byte)
    requires Loaded(buffer, start, k, reader, current)
    ensures (current >= 0x80) == StreamBit(buffer, start, k)
    ensures Streaming(buffer, start, k + 1, reader, Shl1(current))
  {
    ByteCount(k);
    ByteCount(k + 1);
  }

  /**
   * One pixel of the readers that keep `current` in a `byte`: a byte read
   * when the bit cursor is on a byte boundary, then `current & 0x80` and
   * `current <<= 1`.  `end` is the bit the row ends at.
   */
  method TakePixel(ghost buffer: seq<byte>, ghost start: nat, k: nat, ghost end: nat,
                   reader: BufferReaders.Reader, current: byte)
    returns (res: Result<(BufferReaders.Reader, byte, byte)>)
    requires Streaming(buffer, start, k, reader, current) && k < end
    ensures res.Ok? ==> res.value.2 == Mark(StreamBit(buffer, start, k))
    ensures res.Ok? ==> Streaming(buffer, start, k + 1, res.value.0, res.value.1)
    ensures res.Err? ==> res.error == IndexOutOfRange && |buffer| < start + (end + 7) / 8
  {
    var reader', current' := reader, current;
    if k % 8 == 0 {
      var b := BufferReaders.ReadUnaligned(reader', 1);
      if b.Err? {
        ReadShort(buffer, start, k, reader', current', end);
        return Err(b.error);
      }
      ReadNext(buffer, start, k, reader', current');
      current' := b.value.0[0];
      reader' := b.value.1;
    } else {
      InHand(buffer, start, k, reader', current');
    }
    TakeBit(buffer, start, k, reader', current');
    var pixel: byte := if current' >= 0x80 then 0x80 else 0;
    res := Ok((reader', Shl1(current'), pixel));
  }

  /** `result[x, y] = v`, every other cell as it was. */
  method SetCell(result: array2<byte>, x: nat, y: nat, v: byte)
    requires x < result.Length0 && y < result.Length1
    modifies result
    ensures result[x, y] == v
    ensures forall i, j :: 0 <= i < result.Length0 && 0 <= j < result.Length1 && (i, j) != (x, y) ==> result[i, j] == old(result[i, j])
  {
    result[x, y] := v;
  }

  /** One row: pixel x of row y is bit k0 + x of the stream from `start`. */
  method ReadRow(result: array2<byte>, y: nat, ghost buffer: seq<byte>, ghost start: nat, k0: nat,
                 reader: BufferReaders.Reader, current: byte)
    returns (res: Result<(BufferReaders.Reader, byte)>)
    requires y < result.Length1 && Streaming(buffer, start, k0, reader, current)
    modifies result
    ensures res.Ok? ==> Streaming(buffer, start, k0 + result.Length0, res.value.0, res.value.1)
    ensures res.Ok? ==> forall x :: 0 <= x < result.Length0 ==> result[x, y] == Mark(StreamBit(buffer, start, k0 + x))
    ensures res.Err? ==> res.error == IndexOutOfRange && 0 < result.Length0 && |buffer| < start + (k0 + result.Length0 + 7) / 8
    ensures forall x, y' :: 0 <= x < result.Length0 && 0 <= y' < result.Length1 && y' != y ==> result[x, y'] == old(result[x, y'])
  {
    var reader', current' := reader, current;
    var x := 0;
    while x < result.Length0
      invariant x <= result.Length0 && Streaming(buffer, start, k0 + x, reader', current')
      invariant forall i :: 0 <= i < x ==> result[i, y] == Mark(StreamBit(buffer, start, k0 + i))
      invariant forall i, y' :: 0 <= i < result.Length0 && 0 <= y' < result.Length1 && y' != y ==> result[i, y'] == old(result[i, y'])
    {
      var px := TakePixel(buffer, start, k0 + x, k0 + result.Length0, reader', current');
      if px.Err? {
        return Err(px.error);
      }
      reader', current' := px.value.0, px.value.1;
      SetCell(result, x, y, px.value.2);
      x := x + 1;
    }
    res := Ok((reader', current'));
  }

  lemma {:induction false} BitGridOf(a: array2<byte>, buffer: seq<byte>, start: nat)
    requires forall x, y :: 0 <= x < a.Length0 && 0 <= y < a.Length1 ==> a[x, y] == BitCell(buffer, start, a.Length0, x, y)
    ensures GridOf(a) == BitGrid(buffer, start, a.Length0, a.Length1)
  {
    var g, e := GridOf(a), BitGrid(buffer, start, a.Length0, a.Length1);
    forall x | 0 <= x < a.Length0
      ensures g[x] == e[x]
    {
    }
  }

  lemma {:induction false} LineGridOf(a: array2<byte>, buffer: seq<byte>, start: nat)
    requires forall x, y :: 0 <= x < a.Length0 && 0 <= y < a.Length1 ==> a[x, y] == LineCellAsWritten(buffer, start, a.Length0 / 8, x, y)
    ensures GridOf(a) == LineGridAsWritten(buffer, start, a.Length0, a.Length1)
  {
    var g, e := GridOf(a), LineGridAsWritten(buffer, start, a.Length0, a.Length1);
    forall x | 0 <= x < a.Length0
      ensures g[x] == e[x]
    {
    }
  }

  /** A row that runs past the end leaves the whole image short. */
  lemma {:induction false} ImageShort(r: BufferReaders.Reader, rowEnd: nat, n: nat)
    requires 0 < rowEnd <= n && |r.buffer| < r.cursor + (rowEnd + 7) / 8
    ensures (n + 7) / 8 > 0 && BufferReaders.Remains(r) < (n + 7) / 8
  {
  }

  /** The loops end with every byte of the image read. */
  lemma {:induction false} ImageRead(r: BufferReaders.Reader, n: nat, reader: BufferReaders.Reader, current: byte)
    requires Streaming(r.buffer, r.cursor, n, reader, current)
    ensures !((n + 7) / 8 > 0 && BufferReaders.Remains(r) < (n + 7) / 8)
    ensures reader == BufferReaders.Advance(r, (n + 7) / 8)
  {
  }

  /** `DeserializeBitmapBitAligned`: fills `new byte[w, h]` row by row from one stream of bits. */
  method ReadBitAligned(r: BufferReaders.Reader, w: nat, h: nat) returns (res: Result<(seq<seq<byte>>, BufferReaders.Reader)>)
    ensures res == BitAlignedRead(r, w, h)
  {
    var result := new byte[w, h]((_, _) => 0);
    var reader := r;
    var bitCursor := 0;
    var current: byte := 0;
    var y := 0;
    while y < h
      invariant y <= h && bitCursor == y * w
      invariant Streaming(r.buffer, r.cursor, bitCursor, reader, current)
      invariant forall x, y' :: 0 <= x < w && 0 <= y' < y ==> result[x, y'] == BitCell(r.buffer, r.cursor, w, x, y')
    {
      RowBelow(y, w, h);
      var row := ReadRow(result, y, r.buffer, r.cursor, bitCursor, reader, current);
      if row.Err? {
        ImageShort(r, bitCursor + w, w * h);
        return Err(row.error);
      }
      reader, current := row.value.0, row.value.1;
      MulStep(y + 1, w);
      bitCursor := bitCursor + w;
      y := y + 1;
    }
    RowsEnd(h, w);
    ImageRead(r, bitCursor, reader, current);
    BitGridOf(result, r.buffer, r.cursor);
    res := Ok((GridOf(result), reader));
  }

  lemma {:induction false} RowsEnd(h: nat, w: nat)
    ensures h * w == w * h
  {
  }

  /**
   * The state of the byte-aligned reader as written before pixel x of a
   * row from `start`: x / 8 bytes read, `current` clear for the first
   * eight pixels, afterwards the last byte read shifted x % 8 times.
   */
  ghost predicate Late(buffer: seq<byte>, start: nat, x: nat, reader: BufferReaders.Reader, current: byte)
  {
    reader == BufferReaders.Reader(buffer, start + x / 8) &&
    (x < 8 ==> current == 0) &&
    (x >= 8 ==> start + x / 8 <= |buffer| && current == Shifts(buffer[start + x / 8 - 1], x % 8))
  }

  /** Pixel x of a row from `start` as the byte-aligned reader as written takes it. */
  function LatePixel(buffer: seq<byte>, start: nat, x: nat): byte
  {
    if x < 8 then 0 else Mark(StreamBit(buffer, start, x - 8))
  }

  /** `current & 0x80` is the pixel eight places back. */
  lemma {:induction false} LateTake(buffer: seq<byte>, start: nat, x: nat, reader: BufferReaders.Reader, current: byte)
    requires Late(buffer, start, x, reader, current)
    ensures (if current >= 0x80 then 0x80 else 0) == LatePixel(buffer, start, x)
  {
    if x >= 8 {
      assert (x - 8) / 8 == x / 8 - 1 && (x - 8) % 8 == x % 8;
    }
  }

  /** Mid-byte, `current <<= 1` moves to the next pixel. */
  lemma {:induction false} LateShift(buffer: seq<byte>, start: nat, x: nat, reader: BufferReaders.Reader, current: byte)
    requires Late(buffer, start, x, reader, current) && (x + 1) % 8 != 0
    ensures Late(buffer, start, x + 1, reader, Shl1(current))
  {
    assert (x + 1) / 8 == x / 8 && (x + 1) % 8 == x % 8 + 1;
  }

  /** After every eighth pixel the next byte is read. */
  lemma {:induction false} LateRead(buffer: seq<byte>, start: nat, x: nat, reader: BufferReaders.Reader, current: byte)
    requires Late(buffer, start, x, reader, current) && (x + 1) % 8 == 0
    requires BufferReaders.ReadUnaligned(reader, 1).Ok?
    ensures var v := BufferReaders.ReadUnaligned(reader, 1).value; Late(buffer, start, x + 1, v.1, v.0[0])
  {
    assert (x + 1) / 8 == x / 8 + 1 && (x + 1) % 8 == 0;
  }

  /** A read that fails after pixel x shows the row's w / 8 bytes are not all there. */
  lemma {:induction false} LateShort(buffer: seq<byte>, start: nat, x: nat, reader: BufferReaders.Reader, current: byte, end: nat)
    requires Late(buffer, start, x, reader, current) && (x + 1) % 8 == 0 && x < end
    requires BufferReaders.ReadUnaligned(reader, 1).Err?
    ensures |buffer| < start + end / 8 && end >= 8
  {
    assert (x + 1) / 8 == x / 8 + 1 && x / 8 + 1 <= end / 8;
  }

  /**
   * One pixel of `DeserializeBitmapByteAlignedByLine`: `current & 0x80`,
   * `current <<= 1`, `bitCursor++`, and a byte read once `bitCursor` is a
   * multiple of 8.  `end` is the row's width.
   */
  method TakeLatePixel(ghost buffer: seq<byte>, ghost start: nat, x: nat, ghost end: nat,
                       reader: BufferReaders.Reader, current: byte)
    returns (res: Result<(BufferReaders.Reader, byte, byte)>)
    requires Late(buffer, start, x, reader, current) && x < end
    ensures res.Ok? ==> res.value.2 == LatePixel(buffer, start, x)
    ensures res.Ok? ==> Late(buffer, start, x + 1, res.value.0, res.value.1)
    ensures res.Err? ==> res.error == IndexOutOfRange && end >= 8 && |buffer| < start + end / 8
  {
    LateTake(buffer, start, x, reader, current);
    var pixel: byte := if current >= 0x80 then 0x80 else 0;
    var reader', current' := reader, Shl1(current);
    if (x + 1) % 8 == 0 {
      var b := BufferReaders.ReadUnaligned(reader', 1);
      if b.Err? {
        LateShort(buffer, start, x, reader, current, end);
        return Err(b.error);
      }
      LateRead(buffer, start, x, reader, current);
      current' := b.value.0[0];
      reader' := b.value.1;
    } else {
      LateShift(buffer, start, x, reader, current);
    }
    res := Ok((reader', current', pixel));
  }

  /** One row of the byte-aligned reader as written, `current` clear at its start. */
  method ReadLateRow(result: array2<byte>, y: nat, ghost buffer: seq<byte>, ghost start: nat, reader: BufferReaders.Reader)
    returns (res: Result<BufferReaders.Reader>)
    requires y < result.Length1 && reader == BufferReaders.Reader(buffer, start)
    modifies result
    ensures res.Ok? ==> res.value == BufferReaders.Reader(buffer, start + result.Length0 / 8)
    ensures res.Ok? ==> result.Length0 >= 8 ==> start + result.Length0 / 8 <= |buffer|
    ensures res.Ok? ==> forall x :: 0 <= x < result.Length0 ==> result[x, y] == LatePixel(buffer, start, x)
    ensures res.Err? ==> res.error == IndexOutOfRange && result.Length0 >= 8 && |buffer| < start + result.Length0 / 8
    ensures forall x, y' :: 0 <= x < result.Length0 && 0 <= y' < result.Length1 && y' != y ==> result[x, y'] == old(result[x, y'])
  {
    var reader', current' := reader, 0;
    var x := 0;
    while x < result.Length0
      invariant x <= result.Length0 && Late(buffer, start, x, reader', current')
      invariant forall i :: 0 <= i < x ==> result[i, y] == LatePixel(buffer, start, i)
      invariant forall i, y' :: 0 <= i < result.Length0 && 0 <= y' < result.Length1 && y' != y ==> result[i, y'] == old(result[i, y'])
    {
      var px := TakeLatePixel(buffer, start, x, result.Length0, reader', current');
      if px.Err? {
        return Err(px.error);
      }
      reader', current' := px.value.0, px.value.1;
      SetCell(result, x, y, px.value.2);
      x := x + 1;
    }
    res := Ok(reader');
  }

  /** A row that runs past the end leaves the whole image short. */
  lemma {:induction false} LateImageShort(r: BufferReaders.Reader, rowStart: nat, stride: nat, n: nat)
    requires rowStart + stride <= n && 0 < stride && |r.buffer| < r.cursor + rowStart + stride
    ensures n > 0 && BufferReaders.Remains(r) < n
  {
  }

  /**
   * `DeserializeBitmapByteAlignedByLine` as written: row by row, each row
   * from `current = 0` and its own w / 8 bytes.
   */
  method ReadByteAligned(r: BufferReaders.Reader, w: nat, h: nat) returns (res: Result<(seq<seq<byte>>, BufferReaders.Reader)>)
    ensures res == ByteAlignedReadAsWritten(r, w, h)
  {
    var stride := w / 8;
    var result := new byte[w, h]((_, _) => 0);
    var reader := r;
    var rowStart := 0;
    var y := 0;
    while y < h
      invariant y <= h && rowStart == y * stride && reader == BufferReaders.Advance(r, rowStart)
      invariant rowStart > 0 ==> r.cursor + rowStart <= |r.buffer|
      invariant forall x, y' :: 0 <= x < w && 0 <= y' < y ==> result[x, y'] == LineCellAsWritten(r.buffer, r.cursor, stride, x, y')
    {
      RowBelow(y, stride, h);
      var row := ReadLateRow(result, y, r.buffer, r.cursor + rowStart, reader);
      if row.Err? {
        LateImageShort(r, rowStart, stride, h * stride);
        return Err(row.error);
      }
      reader := row.value;
      MulStep(y + 1, stride);
      rowStart := rowStart + stride;
      y := y + 1;
    }
    LineGridOf(result, r.buffer, r.cursor);
    res := Ok((GridOf(result), reader));
  }

  // ------------------------------------------------------------ format 5

  /**
   * The monospace reader of format 5 keeps `current` in an `int`, so
   * `current <<= 1` never drops the bits already used: after j shifts of
   * byte b it holds b * 2^j.
   */
  ghost predicate Mono(bytes: seq<byte>, k: nat, current: int)
  {
    (k > 0 ==> (k + 7) / 8 <= |bytes|) &&
    (k % 8 != 0 ==> k / 8 < |bytes| && current == Doubled(bytes[k / 8], k % 8))
  }

  /** Pixel k as written, `(byte)(current >> 7)`: every bit up to k in its byte counts. */
  function MonoCellAsWritten(bytes: seq<byte>, w: nat, x: nat, y: nat): byte
  {
    MonoAt(bytes, y * w + x)
  }

  /** Bit k of the image as `(byte)(current >> 7)` gives it. */
  function MonoAt(bytes: seq<byte>, k: nat): byte
  {
    if k / 8 < |bytes| then (Doubled(bytes[k / 8], k % 8) / 128) % 256 else 0
  }

  function MonoGridAsWritten(bytes: seq<byte>, w: nat, h: nat): (g: seq<seq<byte>>)
    ensures IsGrid(g, w, h)
  {
    seq(w, x requires 0 <= x < w => seq(h, y requires 0 <= y < h => MonoCellAsWritten(bytes, w, x, y)))
  }

  /** Pixel k with the intended mask, `(byte)((current >> 7) & 1)`. */
  function MonoCell(bytes: seq<byte>, w: nat, x: nat, y: nat): byte
  {
    if StreamBit(bytes, 0, y * w + x) then 1 else 0
  }

  function MonoGrid(bytes: seq<byte>, w: nat, h: nat): (g: seq<seq<byte>>)
    ensures IsGrid(g, w, h)
  {
    seq(w, x requires 0 <= x < w => seq(h, y requires 0 <= y < h => MonoCell(bytes, w, x, y)))
  }

  /** `TtfTableEbdtGlyphBitmap5.Deserialize` after `ReadBytes`, as written. */
  function MonospaceReadAsWritten(bytes: seq<byte>, w: nat, h: nat): (res: Result<seq<seq<byte>>>)
    ensures res.Ok? ==> IsGrid(res.value, w, h)
  {
    if (w * h + 7) / 8 > |bytes| then Err(IndexOutOfRange) else Ok(MonoGridAsWritten(bytes, w, h))
  }

  /** The same reader with the mask: a set pixel is 1, a clear one 0. */
  function MonospaceRead(bytes: seq<byte>, w: nat, h: nat): (res: Result<seq<seq<byte>>>)
    ensures res.Ok? ==> IsGrid(res.value, w, h)
  {
    if (w * h + 7) / 8 > |bytes| then Err(IndexOutOfRange) else Ok(MonoGrid(bytes, w, h))
  }

  /** Two pixels, the first set: the clear second one reads as 2. */
  lemma MonospaceAsWrittenSmears()
    ensures BitAligned([[1], [0]], 2, 1) == [0x80]
    ensures MonospaceReadAsWritten([0x80], 2, 1) == Ok([[1], [2]])
    ensures MonospaceRead([0x80], 2, 1) == Ok([[1], [0]])
  {
    SmearedImage();
    SmearedAsWritten();
    SmearedMasked();
  }

  /** The two pixels pack to one byte. */
  lemma SmearedImage()
    ensures BitAligned([[1], [0]], 2, 1) == [0x80]
  {
    var g: seq<seq<byte>> := [[1], [0]];
    assert Row(g, 2, 1, 0) == [true, false];
    assert Rows(g, 2, 1, 1) == [] + [true, false] == [true, false];
    TopTwo();
  }

  /** Without the mask the second pixel keeps the first one's bit above it. */
  lemma SmearedAsWritten()
    ensures MonospaceReadAsWritten([0x80], 2, 1) == Ok([[1], [2]])
  {
    var a := MonoGridAsWritten([0x80], 2, 1);
    assert a[0] == [1] && a[1] == [2];
    assert a == [[1], [2]];
  }

  /** With the mask each pixel is its own bit. */
  lemma SmearedMasked()
    ensures MonospaceRead([0x80], 2, 1) == Ok([[1], [0]])
  {
    var m := MonoGrid([0x80], 2, 1);
    assert Shifts(0x80, 1) == 0;
    assert StreamBit([0x80], 0, 0) && !StreamBit([0x80], 0, 1);
    assert m[0] == [1] && m[1] == [0];
    assert m == [[1], [0]];
  }

  /** A first bit followed by a clear one packs to 0x80. */
  lemma TopTwo()
    ensures ByteOf([true, false]) == 0x80
  {
    TopOnly();
    assert [true] + Falses(7) == [true, false] + Falses(6);
  }

  /** j times `current <<= 1` on an `int`: nothing shifted out. */
  function Doubled(b: int, j: nat): int
  {
    if j == 0 then b else 2 * Doubled(b, j - 1)
  }

  /** `(current >> 7) & 1` on b shifted left j times is bit j of b. */
  lemma {:induction false} MonoBit(b: byte, j: nat, current: int)
    requires j < 8 && current == Doubled(b, j)
    ensures (current / 128) % 2 == (if TopBit(b, j) then 1 else 0)
  {
    ShiftsMul(b, j);
    var q, r := current / 256, current % 256;
    assert current == 256 * q + r;
    var t := r / 128;
    assert t == (if r >= 0x80 then 1 else 0);
    assert current / 128 == 2 * q + t;
    assert (2 * q + t) % 2 == t;
  }

  /** Shifting a byte left j times inside a byte is shifting it in an `int`, modulo 256. */
  lemma {:induction false} ShiftsMul(b: byte, j: nat)
    ensures Doubled(b, j) >= 0 && Shifts(b, j) == Doubled(b, j) % 256
  {
    if j > 0 {
      ShiftsMul(b, j - 1);
      var v := Doubled(b, j - 1);
      var q, r := v / 256, v % 256;
      assert 2 * v == 256 * (2 * q) + 2 * r;
      ModShift(2 * q, 2 * r);
    }
  }

  lemma {:induction false} DivMono(a: nat, b: nat)
    requires a <= b
    ensures (a + 7) / 8 <= (b + 7) / 8
  {
  }

  lemma {:induction false} ModShift(q: nat, r: nat)
    ensures (256 * q + r) % 256 == r % 256
  {
  }

  /** One pixel of format 5: `current = bytes[bitCursor >> 3]` on a byte boundary, then `(byte)(current >> 7)`. */
  method MonoPixel(bytes: seq<byte>, k: nat, current: int) returns (res: Result<(int, byte)>)
    requires Mono(bytes, k, current)
    ensures res.Ok? ==> Mono(bytes, k + 1, res.value.0) && res.value.1 == MonoAt(bytes, k)
    ensures res.Err? ==> res.error == IndexOutOfRange && |bytes| < (k + 8) / 8
  {
    var current' := current;
    ByteCount(k);
    ByteCount(k + 1);
    if k % 8 == 0 {
      if k / 8 >= |bytes| {
        return Err(IndexOutOfRange);
      }
      current' := bytes[k / 8];
    }
    ShiftsMul(bytes[k / 8], k % 8);
    var pixel: byte := (current' / 128) % 256;
    res := Ok((current' * 2, pixel));
  }

  /** One row of format 5: pixel x of row y is bit k0 + x as written. */
  method MonoRow(result: array2<byte>, y: nat, bytes: seq<byte>, k0: nat, current: int) returns (res: Result<int>)
    requires y < result.Length1 && Mono(bytes, k0, current)
    modifies result
    ensures res.Ok? ==> Mono(bytes, k0 + result.Length0, res.value)
    ensures res.Ok? ==> forall x :: 0 <= x < result.Length0 ==> result[x, y] == MonoAt(bytes, k0 + x)
    ensures res.Err? ==> res.error == IndexOutOfRange && 0 < result.Length0 && |bytes| < (k0 + result.Length0 + 7) / 8
    ensures forall x, y' :: 0 <= x < result.Length0 && 0 <= y' < result.Length1 && y' != y ==> result[x, y'] == old(result[x, y'])
  {
    var current' := current;
    var x := 0;
    while x < result.Length0
      invariant x <= result.Length0 && Mono(bytes, k0 + x, current')
      invariant forall i :: 0 <= i < x ==> result[i, y] == MonoAt(bytes, k0 + i)
      invariant forall i, y' :: 0 <= i < result.Length0 && 0 <= y' < result.Length1 && y' != y ==> result[i, y'] == old(result[i, y'])
    {
      var px := MonoPixel(bytes, k0 + x, current');
      if px.Err? {
        DivMono(k0 + x + 1, k0 + result.Length0);
        return Err(px.error);
      }
      current' := px.value.0;
      result[x, y] := px.value.1;
      x := x + 1;
    }
    res := Ok(current');
  }

  lemma {:induction false} MonoGridOf(a: array2<byte>, bytes: seq<byte>)
    requires forall x, y :: 0 <= x < a.Length0 && 0 <= y < a.Length1 ==> a[x, y] == MonoCellAsWritten(bytes, a.Length0, x, y)
    ensures GridOf(a) == MonoGridAsWritten(bytes, a.Length0, a.Length1)
  {
    var g, e := GridOf(a), MonoGridAsWritten(bytes, a.Length0, a.Length1);
    forall x | 0 <= x < a.Length0
      ensures g[x] == e[x]
    {
    }
  }

  /** `TtfTableEbdtGlyphBitmap5.Deserialize` once the image bytes are read, as written. */
  method ReadMonospace(bytes: seq<byte>, w: nat, h: nat) returns (res: Result<seq<seq<byte>>>)
    ensures res == MonospaceReadAsWritten(bytes, w, h)
  {
    var result := new byte[w, h]((_, _) => 0);
    var bitCursor := 0;
    var current := 0;
    var y := 0;
    while y < h
      invariant y <= h && bitCursor == y * w && Mono(bytes, bitCursor, current)
      invariant forall x, y' :: 0 <= x < w && 0 <= y' < y ==> result[x, y'] == MonoCellAsWritten(bytes, w, x, y')
    {
      RowBelow(y, w, h);
      var row := MonoRow(result, y, bytes, bitCursor, current);
      if row.Err? {
        DivMono(bitCursor + w, w * h);
        return Err(row.error);
      }
      current := row.value;
      MulStep(y + 1, w);
      bitCursor := bitCursor + w;
      y := y + 1;
    }
    RowsEnd(h, w);
    MonoGridOf(result, bytes);
    res := Ok(GridOf(result));
  }

  // ------------------------------------------------------------ round trips

  /** Byte j of row y of a byte-aligned image is byte j of that row packed. */
  lemma {:induction false} LineByte(g: seq<seq<byte>>, w: nat, h: nat, n: nat, y: nat, j: nat)
    requires IsGrid(g, w, h) && n <= h && y < n && j < (w + 7) / 8
    ensures y * ((w + 7) / 8) + j < n * ((w + 7) / 8)
    ensures ByteAlignedRows(g, w, h, n)[y * ((w + 7) / 8) + j] == Pack(Row(g, w, h, y))[j]
    decreases n
  {
    var s := (w + 7) / 8;
    var before := ByteAlignedRows(g, w, h, n - 1);
    var row := Pack(Row(g, w, h, n - 1));
    assert ByteAlignedRows(g, w, h, n) == before + row;
    MulStep(n, s);
    if y == n - 1 {
      assert |before| == y * s;
    } else {
      LineByte(g, w, h, n - 1, y, j);
      MulNat(y, s);
      var i := y * s + j;
      assert i < |before|;
      assert (before + row)[i] == before[i];
    }
  }

  /** Products of naturals are natural; stated once so that index checks need not rediscover it. */
  lemma {:induction false} MulNat(a: nat, b: nat)
    ensures a * b >= 0
  {
  }

  /** A pixel of a bit-aligned image reads back as its mark. */
  lemma {:induction false} BitCellBack(g: seq<seq<byte>>, w: nat, h: nat, buffer: seq<byte>, start: nat, x: nat, y: nat)
    requires IsGrid(g, w, h) && x < w && y < h
    requires start + (w * h + 7) / 8 <= |buffer| && buffer[start..start + (w * h + 7) / 8] == BitAligned(g, w, h)
    ensures BitCell(buffer, start, w, x, y) == (if g[x][y] > 0 then 0x80 else 0)
  {
    MulNat(y, w);
    var k := y * w + x;
    RowsBit(g, w, h, h, x, y);
    PackBit(Rows(g, w, h, h), k);
    SliceAt(buffer, start, BitAligned(g, w, h), k / 8);
  }

  /** A pixel of a byte-aligned image reads back as its mark. */
  lemma {:induction false} LineCellBack(g: seq<seq<byte>>, w: nat, h: nat, buffer: seq<byte>, start: nat, x: nat, y: nat)
    requires IsGrid(g, w, h) && x < w && y < h
    requires start + h * ((w + 7) / 8) <= |buffer| && buffer[start..start + h * ((w + 7) / 8)] == ByteAligned(g, w, h)
    ensures LineCell(buffer, start, (w + 7) / 8, x, y) == (if g[x][y] > 0 then 0x80 else 0)
  {
    var s, j := (w + 7) / 8, x / 8;
    assert j < s;
    PackBit(Row(g, w, h, y), x);
    LineByte(g, w, h, h, y, j);
    MulNat(y, s);
    var i := y * s + j;
    SliceAt(buffer, start, ByteAligned(g, w, h), i);
    assert start + y * s + x / 8 == start + i;
  }

  /** Byte i of an image laid at `start` is byte start + i of the buffer. */
  lemma {:induction false} SliceAt(buffer: seq<byte>, start: nat, image: seq<byte>, i: nat)
    requires start + |image| <= |buffer| && buffer[start..start + |image|] == image && i < |image|
    ensures buffer[start + i] == image[i]
  {
    assert buffer[start..start + |image|][i] == buffer[start + i];
  }

  /** Reading a bit-aligned image back gives every set pixel as 0x80 and every clear one as 0. */
  lemma {:induction false} BitAlignedRoundTrip(g: seq<seq<byte>>, w: nat, h: nat, buffer: seq<byte>, start: nat)
    requires IsGrid(g, w, h)
    requires start + (w * h + 7) / 8 <= |buffer| && buffer[start..start + (w * h + 7) / 8] == BitAligned(g, w, h)
    ensures BitAlignedRead(BufferReaders.Reader(buffer, start), w, h)
         == Ok((Marks(g, w, h, 0x80), BufferReaders.Reader(buffer, start + (w * h + 7) / 8)))
  {
    var e, m := BitGrid(buffer, start, w, h), Marks(g, w, h, 0x80);
    forall x | 0 <= x < w
      ensures e[x] == m[x]
    {
      forall y | 0 <= y < h
        ensures e[x][y] == m[x][y]
      {
        BitCellBack(g, w, h, buffer, start, x, y);
      }
    }
    assert e == m;
  }

  /** Reading a byte-aligned image back gives every set pixel as 0x80 and every clear one as 0. */
  lemma {:induction false} ByteAlignedRoundTrip(g: seq<seq<byte>>, w: nat, h: nat, buffer: seq<byte>, start: nat)
    requires IsGrid(g, w, h)
    requires start + h * ((w + 7) / 8) <= |buffer| && buffer[start..start + h * ((w + 7) / 8)] == ByteAligned(g, w, h)
    ensures ByteAlignedRead(BufferReaders.Reader(buffer, start), w, h)
         == Ok((Marks(g, w, h, 0x80), BufferReaders.Reader(buffer, start + h * ((w + 7) / 8))))
  {
    var e, m := LineGrid(buffer, start, w, h), Marks(g, w, h, 0x80);
    forall x | 0 <= x < w
      ensures e[x] == m[x]
    {
      forall y | 0 <= y < h
        ensures e[x][y] == m[x][y]
      {
        LineCellBack(g, w, h, buffer, start, x, y);
      }
    }
    assert e == m;
  }

  /** Format 5 reads a bit-aligned image back with every set pixel as 1 and every clear one as 0. */
  lemma {:induction false} MonospaceRoundTrip(g: seq<seq<byte>>, w: nat, h: nat, bytes: seq<byte>)
    requires IsGrid(g, w, h)
    requires (w * h + 7) / 8 <= |bytes| && bytes[..(w * h + 7) / 8] == BitAligned(g, w, h)
    ensures MonospaceRead(bytes, w, h) == Ok(Marks(g, w, h, 1))
  {
    var e, m := MonoGrid(bytes, w, h), Marks(g, w, h, 1);
    assert bytes[0..0 + (w * h + 7) / 8] == bytes[..(w * h + 7) / 8];
    forall x | 0 <= x < w
      ensures e[x] == m[x]
    {
      forall y | 0 <= y < h
        ensures e[x][y] == m[x][y]
      {
        BitCellBack(g, w, h, bytes, 0, x, y);
      }
    }
    assert e == m;
  }

  // ------------------------------------------------------------ the readers as written, on any image

  /** The bitmap moved eight pixels right: the first eight columns clear, the last eight lost. */
  function LateMarks(g: seq<seq<byte>>, w: nat, h: nat): (m: seq<seq<byte>>)
    requires IsGrid(g, w, h)
    ensures IsGrid(m, w, h)
  {
    seq(w, x requires 0 <= x < w => seq(h, y requires 0 <= y < h => if x >= 8 && g[x - 8][y] > 0 then 0x80 else 0))
  }

  lemma {:induction false} MulLe(h: nat, s: nat, t: nat)
    requires s <= t
    ensures h * s <= h * t
  {
  }

  /** Rows of w / 8 bytes stay inside an image whose rows take (w + 7) / 8. */
  lemma {:induction false} LateIndex(w: nat, h: nat, x: nat, y: nat)
    requires 8 <= x < w && y < h
    ensures y * (w / 8) + (x - 8) / 8 < h * ((w + 7) / 8)
  {
    var s, t := w / 8, (w + 7) / 8;
    assert (x - 8) / 8 < s;
    RowBelow(y, s, h);
    MulLe(h, s, t);
  }

  /** The byte-aligned reader as written reads an image laid at `start` as it reads the image alone. */
  lemma {:induction false} ByteAlignedAsWrittenAt(image: seq<byte>, w: nat, h: nat, buffer: seq<byte>, start: nat)
    requires |image| == h * ((w + 7) / 8) && start + |image| <= |buffer| && buffer[start..start + |image|] == image
    ensures ByteAlignedReadAsWritten(BufferReaders.Reader(buffer, start), w, h)
         == Ok((LineGridAsWritten(image, 0, w, h), BufferReaders.Reader(buffer, start + h * (w / 8))))
  {
    var s := w / 8;
    MulLe(h, s, (w + 7) / 8);
    var e, m := LineGridAsWritten(buffer, start, w, h), LineGridAsWritten(image, 0, w, h);
    forall x | 0 <= x < w
      ensures e[x] == m[x]
    {
      forall y | 0 <= y < h
        ensures e[x][y] == m[x][y]
      {
        if x >= 8 {
          LateIndex(w, h, x, y);
          MulNat(y, s);
          var i := y * s + (x - 8) / 8;
          SliceAt(buffer, start, image, i);
          assert start + y * s + (x - 8) / 8 == start + i;
        }
      }
    }
    assert e == m;
  }

  /**
   * With rows of whole bytes the byte-aligned reader as written reads an
   * image back moved eight pixels right, and it takes every byte of it.
   */
  lemma {:induction false} ByteAlignedAsWrittenRoundTrip(g: seq<seq<byte>>, w: nat, h: nat, buffer: seq<byte>, start: nat)
    requires IsGrid(g, w, h) && w % 8 == 0
    requires start + h * ((w + 7) / 8) <= |buffer| && buffer[start..start + h * ((w + 7) / 8)] == ByteAligned(g, w, h)
    ensures ByteAlignedReadAsWritten(BufferReaders.Reader(buffer, start), w, h)
         == Ok((LateMarks(g, w, h), BufferReaders.Reader(buffer, start + h * ((w + 7) / 8))))
  {
    var image := ByteAligned(g, w, h);
    ByteAlignedAsWrittenAt(image, w, h, buffer, start);
    assert (w + 7) / 8 == w / 8;
    assert image[0..0 + h * ((w + 7) / 8)] == image;
    var e, m := LineGridAsWritten(image, 0, w, h), LateMarks(g, w, h);
    forall x | 0 <= x < w
      ensures e[x] == m[x]
    {
      forall y | 0 <= y < h
        ensures e[x][y] == m[x][y]
      {
        if x >= 8 {
          LineCellBack(g, w, h, image, 0, x - 8, y);
        }
      }
    }
    assert e == m;
  }

  /** Whatever the width, a set pixel among a row's first eight comes back clear from the reader as written and set from the intended one. */
  lemma {:induction false} ByteAlignedAsWrittenDiffers(g: seq<seq<byte>>, w: nat, h: nat, buffer: seq<byte>, start: nat, x: nat, y: nat)
    requires IsGrid(g, w, h) && x < w && x < 8 && y < h && g[x][y] > 0
    requires start + h * ((w + 7) / 8) <= |buffer| && buffer[start..start + h * ((w + 7) / 8)] == ByteAligned(g, w, h)
    ensures ByteAlignedReadAsWritten(BufferReaders.Reader(buffer, start), w, h).Ok?
    ensures ByteAlignedRead(BufferReaders.Reader(buffer, start), w, h).Ok?
    ensures ByteAlignedReadAsWritten(BufferReaders.Reader(buffer, start), w, h).value.0[x][y] == 0
    ensures ByteAlignedRead(BufferReaders.Reader(buffer, start), w, h).value.0[x][y] == 0x80
  {
    ByteAlignedAsWrittenAt(ByteAligned(g, w, h), w, h, buffer, start);
    ByteAlignedRoundTrip(g, w, h, buffer, start);
  }

  /** n doublings of b are b times n doublings of 1. */
  lemma {:induction false} DoubledMul(b: int, j: nat)
    ensures Doubled(b, j) == b * Doubled(1, j)
  {
    if j > 0 {
      DoubledMul(b, j - 1);
      assert 2 * (b * Doubled(1, j - 1)) == b * (2 * Doubled(1, j - 1));
    }
  }

  lemma PowersOfTwo()
    ensures Doubled(1, 0) == 1 && Doubled(1, 1) == 2 && Doubled(1, 2) == 4 && Doubled(1, 3) == 8
    ensures Doubled(1, 4) == 16 && Doubled(1, 5) == 32 && Doubled(1, 6) == 64 && Doubled(1, 7) == 128
  {
    assert Doubled(1, 1) == 2;
    assert Doubled(1, 2) == 4;
    assert Doubled(1, 3) == 8;
    assert Doubled(1, 4) == 16;
    assert Doubled(1, 5) == 32;
    assert Doubled(1, 6) == 64;
  }

  /**
   * Pixel k of format 5 as written is its byte shifted right 7 - k % 8
   * places: the pixel's bit and every bit before it in the byte.  So it is
   * nonzero exactly when one of those bits is set.
   */
  lemma {:induction false} MonoAtShift(bytes: seq<byte>, k: nat)
    requires k / 8 < |bytes|
    ensures Doubled(1, 7 - k % 8) > 0
    ensures MonoAt(bytes, k) == bytes[k / 8] / Doubled(1, 7 - k % 8)
    ensures MonoAt(bytes, k) != 0 <==> bytes[k / 8] >= Doubled(1, 7 - k % 8)
  {
    var b: int, j := bytes[k / 8], k % 8;
    DoubledMul(b, j);
    PowersOfTwo();
    if j < 4 {
      ShiftLow(b, j, Doubled(b, j), Doubled(1, 7 - j));
    } else {
      ShiftHigh(b, j, Doubled(b, j), Doubled(1, 7 - j));
    }
  }

  /** `MonoAtShift` for the first four bits of a byte, d = b * 2^j and p = 2^(7 - j). */
  lemma {:induction false} ShiftLow(b: int, j: nat, d: int, p: int)
    requires 0 <= b < 256 && j < 4
    requires j == 0 ==> d == b && p == 128
    requires j == 1 ==> d == 2 * b && p == 64
    requires j == 2 ==> d == 4 * b && p == 32
    requires j == 3 ==> d == 8 * b && p == 16
    ensures p > 0 && (d / 128) % 256 == b / p && (b / p != 0 <==> b >= p)
  {
    if j == 1 {
      assert d / 128 == b / 64;
    } else if j == 2 {
      assert d / 128 == b / 32;
    } else if j == 3 {
      assert d / 128 == b / 16;
    }
  }

  /** `MonoAtShift` for the last four bits of a byte. */
  lemma {:induction false} ShiftHigh(b: int, j: nat, d: int, p: int)
    requires 0 <= b < 256 && 4 <= j < 8
    requires j == 4 ==> d == 16 * b && p == 8
    requires j == 5 ==> d == 32 * b && p == 4
    requires j == 6 ==> d == 64 * b && p == 2
    requires j == 7 ==> d == 128 * b && p == 1
    ensures p > 0 && (d / 128) % 256 == b / p && (b / p != 0 <==> b >= p)
  {
  }

  lemma {:induction false} LowBit(n: nat)
    ensures (n % 256) % 2 == n % 2
  {
    assert n == 256 * (n / 256) + n % 256;
  }

  /** The lowest bit of pixel k as written is the pixel: masking it gives the intended cell. */
  lemma {:induction false} MonoAtLowBit(bytes: seq<byte>, w: nat, x: nat, y: nat)
    ensures MonoCellAsWritten(bytes, w, x, y) % 2 == MonoCell(bytes, w, x, y)
  {
    MulNat(y, w);
    var k := y * w + x;
    if k / 8 < |bytes| {
      var d := Doubled(bytes[k / 8], k % 8);
      ShiftsMul(bytes[k / 8], k % 8);
      MonoBit(bytes[k / 8], k % 8, d);
      LowBit(d / 128);
    }
  }

  /** Every cell masked to its lowest bit. */
  function LowBits(g: seq<seq<byte>>, w: nat, h: nat): (m: seq<seq<byte>>)
    requires IsGrid(g, w, h)
    ensures IsGrid(m, w, h)
  {
    seq(w, x requires 0 <= x < w => seq(h, y requires 0 <= y < h => g[x][y] % 2))
  }

  /**
   * Format 5 as written reads a bit-aligned image back with every set
   * pixel odd and every clear one even: masked, its cells are the marks.
   */
  lemma {:induction false} MonospaceAsWrittenRoundTrip(g: seq<seq<byte>>, w: nat, h: nat, bytes: seq<byte>)
    requires IsGrid(g, w, h)
    requires (w * h + 7) / 8 <= |bytes| && bytes[..(w * h + 7) / 8] == BitAligned(g, w, h)
    ensures MonospaceReadAsWritten(bytes, w, h).Ok?
    ensures LowBits(MonospaceReadAsWritten(bytes, w, h).value, w, h) == Marks(g, w, h, 1)
  {
    MonospaceRoundTrip(g, w, h, bytes);
    var e, m := LowBits(MonoGridAsWritten(bytes, w, h), w, h), MonoGrid(bytes, w, h);
    forall x | 0 <= x < w
      ensures e[x] == m[x]
    {
      forall y | 0 <= y < h
        ensures e[x][y] == m[x][y]
      {
        MonoAtLowBit(bytes, w, x, y);
      }
    }
    assert e == m;
  }

  /** Format 5 as written looks only at the image's own (w * h + 7) / 8 bytes. */
  lemma {:induction false} MonoAsWrittenPrefix(bytes: seq<byte>, image: seq<byte>, w: nat, h: nat)
    requires |image| == (w * h + 7) / 8 <= |bytes| && bytes[..|image|] == image
    ensures MonospaceReadAsWritten(bytes, w, h) == Ok(MonoGridAsWritten(image, w, h))
  {
    var e, m := MonoGridAsWritten(bytes, w, h), MonoGridAsWritten(image, w, h);
    forall x | 0 <= x < w
      ensures e[x] == m[x]
    {
      forall y | 0 <= y < h
        ensures e[x][y] == m[x][y]
      {
        RowBelow(y, w, h);
        MulNat(y, w);
        var k := y * w + x;
        DivMono(k + 1, w * h);
        ByteCount(k + 1);
        assert bytes[..|image|][k / 8] == bytes[k / 8];
      }
    }
    assert e == m;
  }
}
