/**
 * Bounded integers and the big-endian byte images of 16-, 32- and 64-bit
 * words.  Every multi-byte value in a font file is stored most significant
 * byte first.
 */
module Bytes {

  type byte = x: int | 0 <= x < 0x100
  type u16 = x: int | 0 <= x < 0x1_0000
  type u32 = x: int | 0 <= x < 0x1_0000_0000
  type u64 = x: int | 0 <= x < 0x1_0000_0000_0000_0000
  type i8 = x: int | -0x80 <= x < 0x80
  type i16 = x: int | -0x8000 <= x < 0x8000
  type i32 = x: int | -0x8000_0000 <= x < 0x8000_0000
  type i64 = x: int | -0x8000_0000_0000_0000 <= x < 0x8000_0000_0000_0000

  function BE16(v: u16): (s: seq<byte>)
  {
    [v / 0x100, v % 0x100]
  }

  function BE32(v: u32): (s: seq<byte>)
  {
    BE16(v / 0x1_0000) + BE16(v % 0x1_0000)
  }

  function BE64(v: u64): (s: seq<byte>)
  {
    BE32(v / 0x1_0000_0000) + BE32(v % 0x1_0000_0000)
  }

  /** The 16-bit value whose big-endian image starts at s[i]. */
  function U16At(s: seq<byte>, i: nat): u16
    requires i + 2 <= |s|
  {
    (s[i] as int) * 0x100 + s[i + 1]
  }

  /** The 32-bit value whose big-endian image starts at s[i]. */
  function U32At(s: seq<byte>, i: nat): u32
    requires i + 4 <= |s|
  {
    U16At(s, i) * 0x1_0000 + U16At(s, i + 2)
  }

  function U64At(s: seq<byte>, i: nat): u64
    requires i + 8 <= |s|
  {
    U32At(s, i) * 0x1_0000_0000 + U32At(s, i + 4)
  }

  lemma {:induction false} BE16RoundTrip(v: u16, s: seq<byte>, i: nat)
    requires i + 2 <= |s| && s[i..i + 2] == BE16(v)
    ensures U16At(s, i) == v
  {
    assert s[i] == BE16(v)[0] && s[i + 1] == BE16(v)[1];
  }

  lemma {:induction false} BE16Decodes(v: u16)
    ensures U16At(BE16(v), 0) == v
  {
  }

  lemma {:induction false} BE32RoundTrip(v: u32, s: seq<byte>, i: nat)
    requires i + 4 <= |s| && s[i..i + 4] == BE32(v)
    ensures U32At(s, i) == v
  {
    assert s[i..i + 2] == s[i..i + 4][..2] == BE16(v / 0x1_0000);
    assert s[i + 2..i + 4] == s[i..i + 4][2..] == BE16(v % 0x1_0000);
    BE16RoundTrip(v / 0x1_0000, s, i);
    BE16RoundTrip(v % 0x1_0000, s, i + 2);
  }

  lemma {:induction false} BE64RoundTrip(v: u64, s: seq<byte>, i: nat)
    requires i + 8 <= |s| && s[i..i + 8] == BE64(v)
    ensures U64At(s, i) == v
  {
    assert s[i..i + 4] == s[i..i + 8][..4] == BE32(v / 0x1_0000_0000);
    assert s[i + 4..i + 8] == s[i..i + 8][4..] == BE32(v % 0x1_0000_0000);
    BE32RoundTrip(v / 0x1_0000_0000, s, i);
    BE32RoundTrip(v % 0x1_0000_0000, s, i + 4);
  }

  /** Two's-complement reinterpretations, as the C# casts between signed and unsigned do. */
  function Unsigned(bits: nat, v: int): nat
    requires bits == 8 || bits == 16 || bits == 32 || bits == 64
    requires -(Half(bits) as int) <= v < Half(bits)
  {
    if v < 0 then v + 2 * Half(bits) else v
  }

  function Signed(bits: nat, u: nat): int
    requires bits == 8 || bits == 16 || bits == 32 || bits == 64
    requires u < 2 * Half(bits)
  {
    if u < Half(bits) then u else u - 2 * Half(bits)
  }

  function Half(bits: nat): nat
    requires bits == 8 || bits == 16 || bits == 32 || bits == 64
  {
    if bits == 8 then 0x80
    else if bits == 16 then 0x8000
    else if bits == 32 then 0x8000_0000
    else 0x8000_0000_0000_0000
  }

  /** `(n + 3) / 4 * 4`: n rounded up to a multiple of 4. */
  function Round4(n: nat): (r: nat)
  {
    (n + 3) / 4 * 4
  }

  lemma {:induction false} Round4Bounds(n: nat)
    ensures n <= Round4(n) < n + 4 && Round4(n) % 4 == 0
  {
  }

  /** (n + 7) / 8 * 8: n rounded up to a multiple of 8. */
  function Round8(n: nat): nat
  {
    (n + 7) / 8 * 8
  }

  /** n * k, unfolded as repeated addition so that length arguments stay linear. */
  function Times(n: nat, k: nat): nat
  {
    if n == 0 then 0 else k + Times(n - 1, k)
  }

  lemma {:induction false} TimesIsProduct(n: nat, k: nat)
    ensures Times(n, k) == n * k
  {
    if n > 0 {
      TimesIsProduct(n - 1, k);
    }
  }

  function Zeros(n: nat): (s: seq<byte>)
    ensures |s| == n && forall i :: 0 <= i < n ==> s[i] == 0
  {
    seq(n, _ => 0)
  }

  function Sum(s: seq<int>): int
  {
    if s == [] then 0 else Sum(s[..|s| - 1]) + s[|s| - 1]
  }

  lemma {:induction false} SumAppend(s: seq<int>, x: int)
    ensures Sum(s + [x]) == Sum(s) + x
  {
    assert (s + [x])[..|s|] == s;
  }

  lemma {:induction false} SumConcat(s: seq<int>, t: seq<int>)
    ensures Sum(s + t) == Sum(s) + Sum(t)
    decreases |t|
  {
    if t == [] {
      assert s + t == s;
    } else {
      var t' := t[..|t| - 1];
      assert s + t == (s + t') + [t[|t| - 1]];
      assert t == t' + [t[|t| - 1]];
      SumAppend(s + t', t[|t| - 1]);
      SumAppend(t', t[|t| - 1]);
      SumConcat(s, t');
    }
  }

  /** The window [pos, pos + len) of a sequence made of pre, x and post, where pre has length pos and x length len. */
  lemma {:induction false} SliceAt<T>(s: seq<T>, pre: seq<T>, x: seq<T>, post: seq<T>, pos: nat, len: nat)
    requires s == pre + (x + post) && pos == |pre| && len == |x|
    ensures pos + len <= |s| && s[pos..pos + len] == x
  {
    assert s[pos..pos + len] == (pre + (x + post))[|pre|..|pre| + |x|];
    MiddleOf(pre, x, post);
  }

  lemma {:induction false} Assoc<T>(a: seq<T>, b: seq<T>, c: seq<T>)
    ensures a + b + c == a + (b + c)
  {
  }

  /** Dropping a prefix of length n leaves what follows it. */
  lemma {:induction false} DropPrefix<T>(a: seq<T>, b: seq<T>, n: nat)
    requires n == |a|
    ensures (a + b)[n..] == b && (a + b)[..n] == a
  {
  }

  lemma {:induction false} AppendEmpty<T>(s: seq<T>)
    ensures s + [] == s
  {
  }

  /** The middle part of a three-part sequence, however the concatenation is grouped. */
  lemma {:induction false} MiddleOf<T>(a: seq<T>, b: seq<T>, c: seq<T>)
    ensures (a + (b + c))[|a|..|a| + |b|] == b
    ensures (a + b + c)[|a|..|a| + |b|] == b
    ensures (a + b + c)[..|a|] == a && (a + b + c)[|a| + |b|..] == c
  {
    assert a + (b + c) == a + b + c;
  }

  /** A sequence made of three parts, cut at the parts' boundaries p and q. */
  lemma {:induction false} Parts3<T>(s: seq<T>, a: seq<T>, b: seq<T>, c: seq<T>, p: nat, q: nat)
    requires s == a + b + c && p == |a| && q == |a| + |b|
    ensures s[..p] == a && s[p..q] == b && s[q..] == c
  {
    assert s[q..] == c by {
      assert forall k :: 0 <= k < |c| ==> s[q..][k] == s[q + k] == c[k];
    }
  }

  /** A window of a window is a window of the whole. */
  lemma {:induction false} SliceOfSlice<T>(s: seq<T>, a: nat, b: nat, c: nat, d: nat, x: nat, y: nat)
    requires a <= b <= |s| && c <= d <= b - a
    requires x == a + c && y == a + d
    ensures s[a..b][c..d] == s[x..y]
  {
    forall k | 0 <= k < d - c
      ensures s[a..b][c..d][k] == s[x..y][k]
    {
      assert s[a..b][c..d][k] == s[a..b][c + k];
    }
  }

  /** A window of a suffix is a window of the whole. */
  lemma {:induction false} SliceOfSuffix<T>(s: seq<T>, a: nat, c: nat, d: nat, x: nat, y: nat)
    requires a <= |s| && c <= d <= |s| - a
    requires x == a + c && y == a + d
    ensures s[a..][c..d] == s[x..y]
  {
    assert forall k :: 0 <= k < d - c ==> s[a..][c..d][k] == s[x + k];
  }

  /** A slice that lies in the second part of a concatenation is a slice of that part. */
  lemma {:induction false} SliceOfTail<T>(a: seq<T>, b: seq<T>, x: nat, y: nat, c: nat, d: nat)
    requires |a| <= x <= y <= |a| + |b| && c == x - |a| && d == y - |a|
    ensures (a + b)[x..y] == b[c..d]
  {
    assert forall k :: 0 <= k < y - x ==> (a + b)[x..y][k] == b[c + k];
  }

  /** A window holding x + y splits into a window holding x and one holding y. */
  lemma {:induction false} SplitWindow<T>(s: seq<T>, lo: nat, mid: nat, hi: nat, x: seq<T>, y: seq<T>)
    requires lo <= hi <= |s| && s[lo..hi] == x + y && mid == lo + |x|
    ensures mid <= hi && s[lo..mid] == x && s[mid..hi] == y
  {
    SliceOfSlice(s, lo, hi, 0, |x|, lo, mid);
    SliceOfSlice(s, lo, hi, |x|, hi - lo, mid, hi);
    assert (x + y)[0..|x|] == x && (x + y)[|x|..hi - lo] == y;
  }

  // ------------------------------------------------------------ writing in place

  /** `d` with `s` written over it from position `at`. */
  function Overwrite(d: seq<byte>, at: nat, s: seq<byte>): (r: seq<byte>)
    requires at + |s| <= |d|
    ensures |r| == |d|
  {
    d[..at] + s + d[at + |s|..]
  }

  lemma {:induction false} OverwriteSnoc(d: seq<byte>, at: nat, s: seq<byte>, v: byte)
    requires at + |s| < |d|
    ensures Overwrite(d, at, s)[at + |s| := v] == Overwrite(d, at, s + [v])
  {
    assert d[at + |s|..][1..] == d[at + |s| + 1..];
  }

  /** Writing s and then t right after it writes s + t. */
  lemma {:induction false} OverwriteConcat(d: seq<byte>, at: nat, s: seq<byte>, t: seq<byte>)
    requires at + |s| + |t| <= |d|
    ensures Overwrite(Overwrite(d, at, s), at + |s|, t) == Overwrite(d, at, s + t)
  {
    var d1 := Overwrite(d, at, s);
    assert d1[..at + |s|] == d[..at] + s;
    assert d1[at + |s| + |t|..] == d[at + |s| + |t|..];
  }

  /** Writes to disjoint places can be made in either order. */
  lemma {:induction false} OverwriteCommute(d: seq<byte>, a: nat, s: seq<byte>, b: nat, t: seq<byte>)
    requires a + |s| <= b && b + |t| <= |d|
    ensures Overwrite(Overwrite(d, a, s), b, t) == Overwrite(Overwrite(d, b, t), a, s)
  {
    var x, y := Overwrite(Overwrite(d, a, s), b, t), Overwrite(Overwrite(d, b, t), a, s);
    forall i | 0 <= i < |d|
      ensures x[i] == y[i]
    {
      if i < a {
      } else if i < a + |s| {
        assert x[i] == s[i - a] == y[i];
      } else if i < b {
      } else if i < b + |t| {
        assert x[i] == t[i - b] == y[i];
      }
    }
  }

  /** Writing over the whole of d leaves only what was written. */
  lemma {:induction false} OverwriteWhole(d: seq<byte>, s: seq<byte>)
    requires |s| == |d|
    ensures Overwrite(d, 0, s) == s
  {
    assert d[|s|..] == [];
  }
  /** The byte at k after a write: the written byte inside the window, the old one outside. */
  lemma {:induction false} OverwriteIndex(d: seq<byte>, at: nat, s: seq<byte>, k: nat)
    requires at + |s| <= |d| && k < |d|
    ensures Overwrite(d, at, s)[k] == if at <= k < at + |s| then s[k - at] else d[k]
  {
    var r := Overwrite(d, at, s);
    assert r == d[..at] + s + d[at + |s|..];
    if k < at {
      assert r[k] == d[..at][k];
    } else if k < at + |s| {
      assert r[k] == (d[..at] + s)[k];
    } else {
      assert r[k] == d[at + |s|..][k - at - |s|];
    }
  }

  /** The written window holds what was written. */
  lemma {:induction false} OverwriteAt(d: seq<byte>, at: nat, s: seq<byte>)
    requires at + |s| <= |d|
    ensures Overwrite(d, at, s)[at..at + |s|] == s
  {
    var r := Overwrite(d, at, s);
    forall k | 0 <= k < |s|
      ensures r[at..at + |s|][k] == s[k]
    {
      OverwriteIndex(d, at, s, at + k);
    }
  }

  /** A window the write does not reach keeps its bytes. */
  lemma {:induction false} OverwriteOutside(d: seq<byte>, at: nat, s: seq<byte>, lo: nat, hi: nat)
    requires at + |s| <= |d| && lo <= hi <= |d| && (at + |s| <= lo || hi <= at)
    ensures Overwrite(d, at, s)[lo..hi] == d[lo..hi]
  {
    var r := Overwrite(d, at, s);
    forall k | 0 <= k < hi - lo
      ensures r[lo..hi][k] == d[lo..hi][k]
    {
      OverwriteIndex(d, at, s, lo + k);
    }
  }

  /** A write seen through a window that contains it is a write into the window. */
  lemma {:induction false} OverwriteWindow(d: seq<byte>, lo: nat, hi: nat, at: nat, s: seq<byte>)
    requires lo <= at && at + |s| <= hi <= |d|
    ensures Overwrite(d, at, s)[lo..hi] == Overwrite(d[lo..hi], at - lo, s)
  {
    var r, w := Overwrite(d, at, s)[lo..hi], Overwrite(d[lo..hi], at - lo, s);
    forall k | 0 <= k < hi - lo
      ensures r[k] == w[k]
    {
      OverwriteIndex(d, at, s, lo + k);
      OverwriteIndex(d[lo..hi], at - lo, s, k);
    }
  }

  /** Writing what is already there changes nothing. */
  lemma {:induction false} OverwriteSame(d: seq<byte>, at: nat, s: seq<byte>)
    requires at + |s| <= |d| && d[at..at + |s|] == s
    ensures Overwrite(d, at, s) == d
  {
    var r := Overwrite(d, at, s);
    forall k | 0 <= k < |d|
      ensures r[k] == d[k]
    {
      OverwriteIndex(d, at, s, k);
      if at <= k < at + |s| {
        assert d[at..at + |s|][k - at] == d[k];
      }
    }
  }

  /** A write into a window already written is a write into what was written there. */
  lemma {:induction false} OverwriteNested(d: seq<byte>, a: nat, s: seq<byte>, k: nat, t: seq<byte>)
    requires a + |s| <= |d| && k + |t| <= |s|
    ensures Overwrite(Overwrite(d, a, s), a + k, t) == Overwrite(d, a, Overwrite(s, k, t))
  {
    var d1 := Overwrite(d, a, s);
    var r, w := Overwrite(d1, a + k, t), Overwrite(d, a, Overwrite(s, k, t));
    forall j | 0 <= j < |d|
      ensures r[j] == w[j]
    {
      OverwriteIndex(d1, a + k, t, j);
      OverwriteIndex(d, a, s, j);
      OverwriteIndex(d, a, Overwrite(s, k, t), j);
      if a <= j < a + |s| {
        OverwriteIndex(s, k, t, j - a);
      }
    }
  }

  /** The second of two writes to the same window is the one that stays. */
  lemma {:induction false} OverwriteTwice(d: seq<byte>, at: nat, s: seq<byte>, t: seq<byte>)
    requires at + |s| <= |d| && |t| == |s|
    ensures Overwrite(Overwrite(d, at, s), at, t) == Overwrite(d, at, t)
  {
    var d1 := Overwrite(d, at, s);
    var r, w := Overwrite(d1, at, t), Overwrite(d, at, t);
    forall j | 0 <= j < |d|
      ensures r[j] == w[j]
    {
      OverwriteIndex(d1, at, t, j);
      OverwriteIndex(d, at, s, j);
      OverwriteIndex(d, at, t, j);
    }
  }
}
