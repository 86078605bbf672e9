/**
 * Arrays of 16- and 32-bit words as `MemoryMarshal.Cast<byte, U16>` and
 * `Cast<byte, U32>` see them: each word big-endian, one after another.
 */
module Words {
  import opened Bytes

  /** The words laid end to end, the last one last. */
  function Image16(s: seq<u16>): (b: seq<byte>)
    ensures |b| == 2 * |s|
  {
    if s == [] then [] else Image16(s[..|s| - 1]) + BE16(s[|s| - 1])
  }

  /** The n words whose images start the bytes. */
  function Values16(b: seq<byte>, n: nat): (s: seq<u16>)
    requires 2 * n <= |b|
    ensures |s| == n && forall i :: 0 <= i < n ==> s[i] == U16At(b, 2 * i)
  {
    seq(n, i requires 0 <= i < n => U16At(b, 2 * i))
  }

  /** One more word, one more image at the end. */
  lemma {:induction false} Image16Snoc(s: seq<u16>, i: nat)
    requires i < |s|
    ensures Image16(s[..i + 1]) == Image16(s[..i]) + BE16(s[i])
  {
    assert s[..i + 1][..i] == s[..i];
  }

  /** Word i's image lies at byte 2i. */
  lemma {:induction false} Image16At(s: seq<u16>, i: nat)
    requires i < |s|
    ensures Image16(s)[2 * i..2 * i + 2] == BE16(s[i])
    decreases |s|
  {
    var n := |s|;
    var head := Image16(s[..n - 1]);
    if i == n - 1 {
      assert Image16(s)[2 * i..2 * i + 2] == (head + BE16(s[n - 1]))[|head|..|head| + 2];
    } else {
      Image16At(s[..n - 1], i);
      assert Image16(s)[2 * i..2 * i + 2] == head[2 * i..2 * i + 2];
    }
  }

  /** Decoding the image, whatever follows it, gives the words back. */
  lemma {:induction false} Values16Image(s: seq<u16>, rest: seq<byte>)
    ensures Values16(Image16(s) + rest, |s|) == s
  {
    var b := Image16(s) + rest;
    forall i | 0 <= i < |s|
      ensures U16At(b, 2 * i) == s[i]
    {
      Image16At(s, i);
      assert b[2 * i..2 * i + 2] == Image16(s)[2 * i..2 * i + 2];
      BE16RoundTrip(s[i], b, 2 * i);
    }
  }

  lemma {:induction false} Image16Concat(a: seq<u16>, b: seq<u16>)
    ensures Image16(a + b) == Image16(a) + Image16(b)
    decreases |b|
  {
    if b == [] {
      assert a + b == a;
    } else {
      var n := |b|;
      assert (a + b)[..|a + b| - 1] == a + b[..n - 1];
      Image16Concat(a, b[..n - 1]);
    }
  }

  function Image32(s: seq<u32>): (b: seq<byte>)
    ensures |b| == 4 * |s|
  {
    if s == [] then [] else Image32(s[..|s| - 1]) + BE32(s[|s| - 1])
  }

  function Values32(b: seq<byte>, n: nat): (s: seq<u32>)
    requires 4 * n <= |b|
    ensures |s| == n && forall i :: 0 <= i < n ==> s[i] == U32At(b, 4 * i)
  {
    seq(n, i requires 0 <= i < n => U32At(b, 4 * i))
  }

  lemma {:induction false} Image32Snoc(s: seq<u32>, i: nat)
    requires i < |s|
    ensures Image32(s[..i + 1]) == Image32(s[..i]) + BE32(s[i])
  {
    assert s[..i + 1][..i] == s[..i];
  }

  lemma {:induction false} Image32At(s: seq<u32>, i: nat)
    requires i < |s|
    ensures Image32(s)[4 * i..4 * i + 4] == BE32(s[i])
    decreases |s|
  {
    var n := |s|;
    var head := Image32(s[..n - 1]);
    if i == n - 1 {
      assert Image32(s)[4 * i..4 * i + 4] == (head + BE32(s[n - 1]))[|head|..|head| + 4];
    } else {
      Image32At(s[..n - 1], i);
      assert Image32(s)[4 * i..4 * i + 4] == head[4 * i..4 * i + 4];
    }
  }

  lemma {:induction false} Values32Image(s: seq<u32>, rest: seq<byte>)
    ensures Values32(Image32(s) + rest, |s|) == s
  {
    var b := Image32(s) + rest;
    forall i | 0 <= i < |s|
      ensures U32At(b, 4 * i) == s[i]
    {
      Image32At(s, i);
      assert b[4 * i..4 * i + 4] == Image32(s)[4 * i..4 * i + 4];
      BE32RoundTrip(s[i], b, 4 * i);
    }
  }
}
