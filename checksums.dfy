/**
 * Table checksums (`TrueTypeFont.ValidateChecksum` and the sums in
 * `TrueTypeFont.Serialize`, `src/TrueType/TrueTypeFont.cs`).
 *
 * A checksum is the sum, modulo 2^32, of the big-endian 32-bit words of a
 * table's bytes padded to a multiple of four.  The `head` table carries the
 * whole-file adjustment in its third word; that word is left out of the
 * table's own checksum.
 */
module Checksums {
  import opened Bytes
  import opened Wrappers
  import FontTags

  const Modulus: int := 0x1_0000_0000

  /** The big-endian 32-bit words of s, as many whole words as it holds (`MemoryMarshal.Cast<byte, U32>`). */
  function Words(s: seq<byte>): (w: seq<int>)
    ensures |w| == |s| / 4
    ensures forall i :: 0 <= i < |w| ==> w[i] == U32At(s, 4 * i)
  {
    seq(|s| / 4, i requires 0 <= i < |s| / 4 => U32At(s, 4 * i))
  }

  /** The wrapping unsigned sum of those words. */
  function WordSum(s: seq<byte>): u32
  {
    Sum(Words(s)) % Modulus
  }

  /** One more whole word at the end adds one more term. */
  lemma {:induction false} WordsSnoc(s: seq<byte>, n: nat)
    requires 4 * n + 4 <= |s|
    ensures Words(s[..4 * n + 4]) == Words(s[..4 * n]) + [U32At(s, 4 * n)]
  {
    var a, b := Words(s[..4 * n + 4]), Words(s[..4 * n]) + [U32At(s, 4 * n)];
    forall i | 0 <= i < |a|
      ensures a[i] == b[i]
    {
      assert s[..4 * n + 4][4 * i..4 * i + 4] == s[4 * i..4 * i + 4];
      if i < n {
        assert s[..4 * n][4 * i..4 * i + 4] == s[4 * i..4 * i + 4];
      }
    }
  }

  /** Replacing one term of a sum changes the sum by the difference. */
  lemma {:induction false} SumUpdate(s: seq<int>, i: nat, x: int)
    requires i < |s|
    ensures Sum(s[i := x]) == Sum(s) - s[i] + x
    decreases |s|
  {
    var n := |s| - 1;
    assert s[i := x][..n] == if i < n then s[..n][i := x] else s[..n];
    if i < n {
      SumUpdate(s[..n], i, x);
    }
  }

  /** Writing one aligned word changes the word sum by the difference between the new and the old word. */
  lemma {:induction false} OverwriteWord(s: seq<byte>, at: nat, v: u32)
    requires at % 4 == 0 && at + 4 <= |s|
    ensures Words(Overwrite(s, at, BE32(v))) == Words(s)[at / 4 := v]
    ensures Sum(Words(Overwrite(s, at, BE32(v)))) == Sum(Words(s)) - U32At(s, at) + v
  {
    var t := Overwrite(s, at, BE32(v));
    var a, b := Words(t), Words(s)[at / 4 := v];
    forall i | 0 <= i < |a|
      ensures a[i] == b[i]
    {
      if i == at / 4 {
        assert t[at..at + 4] == BE32(v);
        BE32RoundTrip(v, t, at);
      } else {
        assert t[4 * i..4 * i + 4] == s[4 * i..4 * i + 4];
      }
    }
    SumUpdate(Words(s), at / 4, v);
  }

  /** Adding to a reduced sum and reducing again is reducing the whole sum. */
  lemma {:induction false} AddMod(a: int, c: int)
    ensures (a % Modulus + c) % Modulus == (a + c) % Modulus
  {
    var q := a / Modulus;
    assert a == q * Modulus + a % Modulus;
    var x := a % Modulus + c;
    assert a + c == x + q * Modulus;
    assert (x + q * Modulus) % Modulus == x % Modulus;
  }

  /** The wrapping sum of the first n words, added one at a time. */
  function PartialSum(s: seq<byte>, n: nat): u32
    requires 4 * n <= |s|
  {
    if n == 0 then 0 else (PartialSum(s, n - 1) + U32At(s, 4 * (n - 1))) % Modulus
  }

  /** Adding word by word with wrap-around is summing and wrapping once. */
  lemma {:induction false} PartialSumIsWordSum(s: seq<byte>, n: nat)
    requires 4 * n <= |s|
    ensures PartialSum(s, n) == Sum(Words(s[..4 * n])) % Modulus
  {
    if n == 0 {
      assert Words(s[..0]) == [];
    } else {
      var m := n - 1;
      PartialSumIsWordSum(s, m);
      SumStep(s, m, PartialSum(s, m), U32At(s, 4 * m));
      assert 4 * m + 4 == 4 * n;
    }
  }

  /** The sum of every whole word of s, added one at a time. */
  lemma {:induction false} PartialSumWhole(s: seq<byte>)
    ensures PartialSum(s, |s| / 4) == WordSum(s)
  {
    PartialSumIsWordSum(s, |s| / 4);
    WordsWhole(s, |s| / 4);
  }

  /**
   * The summing loop over a window of the destination: the words of s,
   * added with 32-bit wrap-around.
   */
  method SumWords(s: seq<byte>) returns (sum: u32)
    ensures sum == WordSum(s) && sum == PartialSum(s, |s| / 4)
  {
    sum := 0;
    var n := 0;
    while n < |s| / 4
      invariant n <= |s| / 4
      invariant sum == PartialSum(s, n)
    {
      sum := (sum + U32At(s, 4 * n)) % Modulus;
      n := n + 1;
    }
    PartialSumWhole(s);
  }

  lemma {:induction false} SumStep(s: seq<byte>, n: nat, sum: int, c: int)
    requires 4 * n + 4 <= |s| && sum == Sum(Words(s[..4 * n])) % Modulus
    requires c == U32At(s, 4 * n)
    ensures (sum + c) % Modulus == Sum(Words(s[..4 * n + 4])) % Modulus
  {
    WordsSnoc(s, n);
    SumAppend(Words(s[..4 * n]), c);
    AddMod(Sum(Words(s[..4 * n])), c);
  }

  /** The last one to three bytes do not make a word. */
  lemma {:induction false} WordsWhole(s: seq<byte>, n: nat)
    requires 4 * n <= |s| < 4 * n + 4
    ensures Words(s[..4 * n]) == Words(s)
  {
    assert forall i :: 0 <= i < n ==> s[..4 * n][4 * i..4 * i + 4] == s[4 * i..4 * i + 4];
  }

  // ------------------------------------------------------------ the C# int arithmetic of ValidateChecksum

  /** `(int)(uint)x`: the 32-bit pattern read as a signed int. */
  function AsInt(x: u32): int
  {
    if x < 0x8000_0000 then x else x - Modulus
  }

  /** An int result wrapped to 32 bits, as unchecked C# arithmetic does. */
  function WrapInt(x: int): int
  {
    var u := x % Modulus;
    if u < 0x8000_0000 then u else u - Modulus
  }

  /** C# integer division, which rounds toward zero. */
  function DivToZero(x: int, d: nat): int
    requires d > 0
  {
    if x >= 0 then x / d else -((-x) / d)
  }

  /** `(length + 3) / 4 * 4` computed on the int that `(int)(uint)length` gives. */
  function CheckedSize(length: u32): int
  {
    DivToZero(WrapInt(AsInt(length) + 3), 4) * 4
  }

  /**
   * Below 2^31 - 3 the padded size is the length rounded up to a multiple of
   * four; the largest lengths wrap to negative sizes (the slice then throws),
   * except the last six, which round to an empty window.
   */
  lemma {:induction false} CheckedSizeCases(length: u32)
    ensures length <= 0x7FFF_FFFC ==> CheckedSize(length) == Round4(length)
    ensures 0x7FFF_FFFC < length < 0xFFFF_FFFA ==> CheckedSize(length) < 0
    ensures 0xFFFF_FFFA <= length ==> CheckedSize(length) == 0
  {
    if length <= 0x7FFF_FFFC {
      CheckedSizeSmall(length);
    } else if length == 0x7FFF_FFFD || length == 0x7FFF_FFFE || length == 0x7FFF_FFFF {
      assert WrapInt(AsInt(length) + 3) == length + 3 - Modulus;
    } else {
      assert WrapInt(AsInt(length) + 3) == length - Modulus + 3;
    }
  }

  lemma {:induction false} CheckedSizeSmall(length: u32)
    requires length <= 0x7FFF_FFFC
    ensures CheckedSize(length) == Round4(length)
  {
    assert WrapInt(AsInt(length) + 3) == length + 3;
  }

  // ------------------------------------------------------------ checking a directory entry

  /** A table directory entry. */
  datatype Entry = Entry(tag: u32, checkSum: u32, offset: u32, length: u32)

  predicate IsHeadTag(tag: u32)
  {
    tag == FontTags.TagOf(FontTags.Head)
  }

  /**
   * The sum `ValidateChecksum` compares with the directory: every word of the
   * padded window, with the `head` table's third word taken back out.
   */
  function Recomputed(window: seq<byte>, isHead: bool): u32
    requires isHead ==> |window| >= 12
  {
    if isHead then (Sum(Words(window)) - U32At(window, 8)) % Modulus
    else WordSum(window)
  }

  /** Taking the third word back out is the same as summing with that word zeroed. */
  lemma {:induction false} HeadCancellation(window: seq<byte>)
    requires |window| >= 12
    ensures Recomputed(window, true) == WordSum(Overwrite(window, 8, BE32(0)))
  {
    OverwriteWord(window, 8, 0);
  }

  /** Whatever is stored in the third word, the head table's recomputed sum is the same. */
  lemma {:induction false} HeadAdjustmentIgnored(window: seq<byte>, v: u32)
    requires |window| >= 12
    ensures Recomputed(Overwrite(window, 8, BE32(v)), true) == Recomputed(window, true)
  {
    var t := Overwrite(window, 8, BE32(v));
    OverwriteWord(window, 8, v);
    assert t[8..12] == BE32(v);
    BE32RoundTrip(v, t, 8);
  }

  /** `ValidateChecksum`: the window the entry names must lie in the font and its sum must match. */
  function ValidateChecksum(font: seq<byte>, e: Entry): (r: Result<()>)
    ensures r.Ok? ==> 0 <= AsInt(e.offset) && 0 <= CheckedSize(e.length)
                      && AsInt(e.offset) + CheckedSize(e.length) <= |font|
    ensures r.Ok? ==> (IsHeadTag(e.tag) ==> CheckedSize(e.length) >= 12)
                      && e.checkSum == Recomputed(font[AsInt(e.offset)..AsInt(e.offset) + CheckedSize(e.length)], IsHeadTag(e.tag))
    ensures r.Err? ==> r.error in {ArgumentOutOfRange, IndexOutOfRange, Argument}
  {
    var offset := AsInt(e.offset);
    var size := CheckedSize(e.length);
    if offset < 0 || size < 0 || offset + size > |font| then Err(ArgumentOutOfRange)
    else if IsHeadTag(e.tag) && size < 12 then Err(IndexOutOfRange)
    else if Recomputed(font[offset..offset + size], IsHeadTag(e.tag)) != e.checkSum then Err(Argument)
    else Ok(())
  }

  /**
   * For an entry whose window lies in the font, the check passes exactly
   * when the stored sum is the recomputed one.
   */
  lemma {:induction false} ValidateAccepts(font: seq<byte>, e: Entry)
    requires e.offset < 0x8000_0000 && e.length <= 0x7FFF_FFFC
    requires e.offset + Round4(e.length) <= |font|
    requires IsHeadTag(e.tag) ==> e.length >= 12
    ensures ValidateChecksum(font, e).Ok? <==>
            e.checkSum == Recomputed(font[e.offset..e.offset + Round4(e.length)], IsHeadTag(e.tag))
  {
    CheckedSizeSmall(e.length);
    Round4Bounds(e.length);
    var offset, size := AsInt(e.offset), CheckedSize(e.length);
    assert offset == e.offset && size == Round4(e.length);
    assert !(offset < 0 || size < 0 || offset + size > |font|);
    assert !(IsHeadTag(e.tag) && size < 12);
  }
}
