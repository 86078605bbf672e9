/**
 * Parts laid end to end: the running totals of their sizes are where each
 * part starts.  The glyf table lays its entries out this way and loca
 * records the running totals.
 */
module Slots {
  /** The sizes added up, the last one added last. */
  function Total(sizes: seq<nat>): nat
  {
    if sizes == [] then 0 else Total(sizes[..|sizes| - 1]) + sizes[|sizes| - 1]
  }

  /** One more size, one more term. */
  lemma {:induction false} TotalStep(sizes: seq<nat>, i: nat)
    requires i < |sizes|
    ensures Total(sizes[..i + 1]) == Total(sizes[..i]) + sizes[i]
  {
    assert sizes[..i + 1][..i] == sizes[..i];
  }

  /** The running totals never decrease, and the last one is the whole total. */
  lemma {:induction false} TotalMonotone(sizes: seq<nat>, i: nat, j: nat)
    requires i <= j <= |sizes|
    ensures Total(sizes[..i]) <= Total(sizes[..j]) <= Total(sizes)
    decreases |sizes| - i
  {
    if i < |sizes| {
      TotalStep(sizes, i);
      TotalMonotone(sizes, i + 1, if i < j then j else i + 1);
    } else {
      assert sizes[..i] == sizes;
    }
  }

  /** The total of two runs of sizes laid end to end. */
  lemma {:induction false} TotalConcat(a: seq<nat>, b: seq<nat>)
    ensures Total(a + b) == Total(a) + Total(b)
    decreases |b|
  {
    if b == [] {
      assert a + b == a;
    } else {
      var n := |b|;
      assert (a + b)[..|a + b| - 1] == a + b[..n - 1];
      TotalConcat(a, b[..n - 1]);
    }
  }

  /** Taking one size out of the middle takes exactly it off the total. */
  lemma {:induction false} TotalWithout(s: seq<nat>, i: nat)
    requires i < |s|
    ensures Total(s) == Total(s[..i] + s[i + 1..]) + s[i]
  {
    assert s == s[..i] + [s[i]] + s[i + 1..];
    TotalConcat(s[..i] + [s[i]], s[i + 1..]);
    TotalConcat(s[..i], [s[i]]);
    TotalConcat(s[..i], s[i + 1..]);
    assert [s[i]][..0] == [];
  }

  /** A longer prefix: one more element at its end. */
  lemma {:induction false} TakeStep<T>(s: seq<T>, i: nat)
    requires i < |s|
    ensures s[..i + 1] == s[..i] + [s[i]]
  {
  }

  /** A suffix: its first element, then the rest. */
  lemma {:induction false} DropStep<T>(s: seq<T>, i: nat)
    requires i < |s|
    ensures s[i..] == [s[i]] + s[i + 1..]
  {
  }

  /** The whole of a sequence and none of it, as prefixes. */
  lemma {:induction false} WholePrefix<T>(s: seq<T>)
    ensures s[..|s|] == s && s[..0] == []
  {
  }

  /** Parts of one size k laid end to end: part i starts at i * k. */
  lemma {:induction false} TotalConstant(sizes: seq<nat>, k: nat, i: nat)
    requires i <= |sizes| && forall j :: 0 <= j < |sizes| ==> sizes[j] == k
    ensures Total(sizes[..i]) == i * k
  {
    if i > 0 {
      TotalStep(sizes, i - 1);
      TotalConstant(sizes, k, i - 1);
    }
  }

  lemma {:induction false} WholeSuffix<T>(s: seq<T>)
    ensures s[0..] == s && [] + s == s
  {
  }

  /** The parts one after another. */
  function Concat<T>(parts: seq<seq<T>>): seq<T>
  {
    if parts == [] then [] else Concat(parts[..|parts| - 1]) + parts[|parts| - 1]
  }

  function Lengths<T>(parts: seq<seq<T>>): (ls: seq<nat>)
    ensures |ls| == |parts| && forall i :: 0 <= i < |parts| ==> ls[i] == |parts[i]|
  {
    seq(|parts|, i requires 0 <= i < |parts| => |parts[i]|)
  }

  lemma {:induction false} ConcatLength<T>(parts: seq<seq<T>>)
    ensures |Concat(parts)| == Total(Lengths(parts))
  {
    if parts != [] {
      var n := |parts|;
      ConcatLength(parts[..n - 1]);
      assert Lengths(parts[..n - 1]) == Lengths(parts)[..n - 1];
    }
  }

  /** One more part, one more piece at the end. */
  lemma {:induction false} ConcatStep<T>(parts: seq<seq<T>>, i: nat)
    requires i < |parts|
    ensures Concat(parts[..i + 1]) == Concat(parts[..i]) + parts[i]
  {
    assert parts[..i + 1][..i] == parts[..i];
  }

  /** Part i lies between the running totals before and after it. */
  lemma {:induction false} ConcatAt<T>(parts: seq<seq<T>>, i: nat)
    requires i < |parts|
    ensures Total(Lengths(parts)[..i + 1]) == Total(Lengths(parts)[..i]) + |parts[i]| <= |Concat(parts)|
    ensures Concat(parts)[Total(Lengths(parts)[..i])..Total(Lengths(parts)[..i + 1])] == parts[i]
    decreases |parts|
  {
    var n := |parts|;
    var ls := Lengths(parts);
    var before := parts[..n - 1];
    var head, last := Concat(before), parts[n - 1];
    TotalStep(ls, i);
    TotalMonotone(ls, i + 1, n);
    ConcatLength(parts);
    assert ls[..n] == ls;
    var x, y := Total(ls[..i]), Total(ls[..i + 1]);
    assert Concat(parts) == head + last;
    ConcatLength(before);
    assert Lengths(before) == ls[..n - 1];
    if i == n - 1 {
      assert x == |head| && y == |head| + |last|;
      SliceRight(head, last);
    } else {
      ConcatAt(before, i);
      assert Lengths(before)[..i] == ls[..i] && Lengths(before)[..i + 1] == ls[..i + 1];
      SliceLeft(head, last, x, y);
    }
  }

  /** A window inside the front of a concatenation is that window of the front. */
  lemma {:induction false} SliceLeft<T>(a: seq<T>, b: seq<T>, x: nat, y: nat)
    requires x <= y <= |a|
    ensures (a + b)[x..y] == a[x..y]
  {
    assert forall k :: 0 <= k < y - x ==> (a + b)[x..y][k] == a[x..y][k];
  }

  /** The back of a concatenation lies right after the front. */
  lemma {:induction false} SliceRight<T>(a: seq<T>, b: seq<T>)
    ensures (a + b)[|a|..|a| + |b|] == b
  {
    assert forall k :: 0 <= k < |b| ==> (a + b)[|a|..|a| + |b|][k] == b[k];
  }

  /** Parts of one length k laid end to end: part i lies at k i. */
  lemma {:induction false} ConcatUniform<T>(parts: seq<seq<T>>, k: nat, i: nat)
    requires forall j :: 0 <= j < |parts| ==> |parts[j]| == k
    requires i < |parts|
    ensures k * i + k <= |Concat(parts)| == k * |parts|
    ensures Concat(parts)[k * i..k * i + k] == parts[i]
  {
    var ls := Lengths(parts);
    ConcatLength(parts);
    ConcatAt(parts, i);
    TotalConstant(ls, k, i);
    TotalConstant(ls, k, i + 1);
    TotalConstant(ls, k, |ls|);
    WholePrefix(ls);
  }

  lemma {:induction false} ConcatUniformLength<T>(parts: seq<seq<T>>, k: nat)
    requires forall j :: 0 <= j < |parts| ==> |parts[j]| == k
    ensures |Concat(parts)| == k * |parts|
  {
    var ls := Lengths(parts);
    ConcatLength(parts);
    TotalConstant(ls, k, |ls|);
    WholePrefix(ls);
  }

  /** Element j of part i lies at the total of the parts before it plus j. */
  lemma {:induction false} ConcatIndex<T>(parts: seq<seq<T>>, i: nat, j: nat)
    requires i < |parts| && j < |parts[i]|
    ensures Total(Lengths(parts)[..i]) + j < |Concat(parts)|
    ensures Concat(parts)[Total(Lengths(parts)[..i]) + j] == parts[i][j]
  {
    ConcatAt(parts, i);
    var x := Total(Lengths(parts)[..i]);
    assert Concat(parts)[x..x + |parts[i]|][j] == parts[i][j];
  }
}
