/**
 * Writing byte images into a destination buffer: the `Span.CopyTo` and
 * struct writes every table's `Serialize` performs on its slice of the
 * font file.  A serializer writes its parts one after another; `Agree`
 * says which windows of the buffer already hold the intended image, and
 * the lemmas below carry that knowledge across each write.
 */
module ByteArrays {
  import opened Bytes

  /** Copies src into dest at start; every other byte keeps its value. */
  method CopyInto(dest: array<byte>, start: nat, src: seq<byte>)
    requires start + |src| <= dest.Length
    modifies dest
    ensures dest[..] == old(dest[..])[..start] + src + old(dest[..])[start + |src|..]
  {
    var i := 0;
    while i < |src|
      invariant 0 <= i <= |src|
      invariant forall k :: start <= k < start + i ==> dest[k] == src[k - start]
      invariant forall k :: 0 <= k < dest.Length && !(start <= k < start + i) ==> dest[k] == old(dest[k])
    {
      dest[start + i] := src[i];
      i := i + 1;
    }
    ghost var expected := old(dest[..])[..start] + src + old(dest[..])[start + |src|..];
    assert forall k :: 0 <= k < dest.Length ==> dest[..][k] == expected[k];
  }

  /** CopyInto stated as `Overwrite`. */
  method OverwriteInto(dest: array<byte>, start: nat, src: seq<byte>)
    requires start + |src| <= dest.Length
    modifies dest
    ensures dest[..] == Overwrite(old(dest[..]), start, src)
  {
    CopyInto(dest, start, src);
  }

  /**
   * CopyInto seen from the serializer: the part written is the image's own
   * bytes there, and two windows that already hold the image and do not
   * overlap the write keep it.
   */
  method CopyPart(dest: array<byte>, start: nat, src: seq<byte>, ghost img: seq<byte>,
                  ghost lo1: nat, ghost hi1: nat, ghost lo2: nat, ghost hi2: nat)
    requires start + |src| <= dest.Length && start + |src| <= |img|
    requires img[start..start + |src|] == src
    requires Agree(dest[..], img, lo1, hi1) && (hi1 <= start || start + |src| <= lo1)
    requires Agree(dest[..], img, lo2, hi2) && (hi2 <= start || start + |src| <= lo2)
    modifies dest
    ensures Agree(dest[..], img, lo1, hi1) && Agree(dest[..], img, lo2, hi2)
    ensures Agree(dest[..], img, start, start + |src|)
  {
    ghost var before := dest[..];
    CopyInto(dest, start, src);
    AgreeAfterCopy(before, dest[..], img, start, src, lo1, hi1);
    AgreeAfterCopy(before, dest[..], img, start, src, lo2, hi2);
    AgreeCopied(before, dest[..], img, start, src);
  }

  /** a and b hold the same values on the window [lo, hi). */
  predicate Agree(a: seq<byte>, b: seq<byte>, lo: nat, hi: nat)
  {
    lo <= hi <= |a| && hi <= |b| && a[lo..hi] == b[lo..hi]
  }

  /** A write outside a window leaves the window's agreement in place. */
  lemma {:induction false} AgreeAfterCopy(before: seq<byte>, after: seq<byte>, img: seq<byte>, start: nat, src: seq<byte>, lo: nat, hi: nat)
    requires start + |src| <= |before|
    requires after == before[..start] + src + before[start + |src|..]
    requires Agree(before, img, lo, hi)
    requires hi <= start || start + |src| <= lo
    ensures Agree(after, img, lo, hi)
  {
    forall k | lo <= k < hi
      ensures after[k] == img[k]
    {
      assert before[lo..hi][k - lo] == img[lo..hi][k - lo];
      if k < start {
        assert after[k] == before[..start][k];
      } else {
        assert after[k] == before[start + |src|..][k - start - |src|];
      }
    }
    assert forall k :: 0 <= k < hi - lo ==> after[lo..hi][k] == after[lo + k] == img[lo + k] == img[lo..hi][k];
  }

  /** A write of the image's own bytes makes the written window agree. */
  lemma {:induction false} AgreeCopied(before: seq<byte>, after: seq<byte>, img: seq<byte>, start: nat, src: seq<byte>)
    requires start + |src| <= |before| && start + |src| <= |img|
    requires after == before[..start] + src + before[start + |src|..]
    requires img[start..start + |src|] == src
    ensures Agree(after, img, start, start + |src|)
  {
    ghost var hi := start + |src|;
    forall k | 0 <= k < |src|
      ensures after[start..hi][k] == img[start..hi][k]
    {
      assert after[start + k] == src[k];
    }
  }

  /** Two adjacent agreeing windows make one. */
  lemma {:induction false} AgreeJoin(a: seq<byte>, b: seq<byte>, lo: nat, mid: nat, hi: nat)
    requires Agree(a, b, lo, mid) && Agree(a, b, mid, hi)
    ensures Agree(a, b, lo, hi)
  {
    forall k | lo <= k < hi
      ensures a[k] == b[k]
    {
      if k < mid {
        assert a[lo..mid][k - lo] == b[lo..mid][k - lo];
      } else {
        assert a[mid..hi][k - mid] == b[mid..hi][k - mid];
      }
    }
    assert forall k :: 0 <= k < hi - lo ==> a[lo..hi][k] == a[lo + k] == b[lo + k] == b[lo..hi][k];
  }

  /** Agreeing everywhere on sequences of one length is equality. */
  lemma {:induction false} AgreeAll(a: seq<byte>, b: seq<byte>)
    requires |a| == |b| && Agree(a, b, 0, |a|)
    ensures a == b
  {
    assert a[0..|a|] == a && b[0..|b|] == b;
  }
}
