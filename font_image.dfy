/**
 * What a file written by `TrueTypeFont.Serialize` holds
 * (`src/TrueType/TrueTypeFont.cs`): the offset subtable with the table
 * count, one entry per table carrying its tag, offset, length and a
 * checksum that `ValidateChecksum` accepts, each table's own bytes at its
 * offset, and, when there is a head table, words that add up to
 * 0xB1B0AFBA.
 */
module FontImage {
  import opened Bytes
  import opened Wrappers
  import opened Checksums
  import opened FontLayout

  // ------------------------------------------------------------ what one turn touches

  lemma {:induction false} OffsetMono(ts: seq<TableImage>, i: nat, j: nat)
    requires i <= j <= |ts|
    ensures EntryOffset(|ts|) <= OffsetOf(ts, i) <= OffsetOf(ts, j)
  {
    if i < j {
      OffsetWithin(ts, i, j);
    }
  }

  lemma {:induction false} RoomBelow(ts: seq<TableImage>, i: nat, j: nat, len: nat)
    requires i <= j && Room(ts, j, len)
    ensures Room(ts, i, len)
  {
    OffsetMono(ts, i, j);
  }

  /** Turn i writes table i's window and entry i, and nothing else. */
  lemma {:induction false} TurnOutside(d: seq<byte>, ts: seq<TableImage>, i: nat, lo: nat, hi: nat)
    requires i < |ts| && Room(ts, i + 1, |d|) && |ts| % 0x1_0000 != 0
    requires lo <= hi <= |d|
    requires OffsetOf(ts, i + 1) <= lo || hi <= OffsetOf(ts, i)
    requires EntryOffset(i + 1) <= lo || hi <= EntryOffset(i)
    ensures Room(ts, i, |d|)
    ensures Turn(d, ts, i)[lo..hi] == Written(d, ts, i)[lo..hi]
  {
    RoomShrinks(ts, i + 1, |d|);
    var w := Written(d, ts, i);
    OffsetNext(ts, i);
    Round4Bounds(|ts[i].image|);
    var placed := Placed(w, ts, i);
    OverwriteOutside(w, OffsetOf(ts, i), Stored(ts[i]), lo, hi);
    var e := EntryOf(ts, i, placed);
    OverwriteOutside(placed, EntryOffset(i), EntryImage(e), lo, hi);
  }

  /** Two writes, the second before the first's window: the window holds the first write, the second span the second. */
  lemma {:induction false} TwoWrites(w: seq<byte>, placed: seq<byte>, after: seq<byte>, a: nat, b: nat, st: seq<byte>, p: nat, ent: seq<byte>)
    requires a + |st| <= b <= |w| && p + |ent| <= a
    requires placed == Overwrite(w, a, st) && after == Overwrite(placed, p, ent)
    ensures after[a..b] == placed[a..b] == Overwrite(w[a..b], 0, st)
    ensures after[p..p + |ent|] == ent
  {
    OverwriteWindow(w, a, b, a, st);
    OverwriteOutside(placed, p, ent, a, b);
    OverwriteAt(placed, p, ent);
  }

  /** Later turns leave alone a span past the directory and before table i's window. */
  lemma {:induction false} KeptAfter(d: seq<byte>, ts: seq<TableImage>, i: nat, j: nat, lo: nat, hi: nat)
    requires |ts| % 0x1_0000 != 0 && i <= j && Room(ts, j, |d|)
    requires EntryOffset(|ts|) <= lo <= hi <= OffsetOf(ts, i) && hi <= |d|
    ensures Room(ts, i, |d|)
    ensures Written(d, ts, j)[lo..hi] == Written(d, ts, i)[lo..hi]
    decreases j, 1
  {
    RoomBelow(ts, i, j, |d|);
    if i < j {
      KeptAfterStep(d, ts, i, j, lo, hi);
    }
  }

  /** The step of `KeptAfter`: turn j keeps the span, and so do the turns before it. */
  lemma {:induction false} KeptAfterStep(d: seq<byte>, ts: seq<TableImage>, i: nat, j: nat, lo: nat, hi: nat)
    requires |ts| % 0x1_0000 != 0 && i < j && Room(ts, j, |d|)
    requires EntryOffset(|ts|) <= lo <= hi <= OffsetOf(ts, i) && hi <= |d|
    ensures Room(ts, i, |d|)
    ensures Written(d, ts, j)[lo..hi] == Written(d, ts, i)[lo..hi]
    decreases j, 0
  {
    OffsetMono(ts, i, j - 1);
    StepAfter(d, ts, j, lo, hi);
    KeptAfter(d, ts, i, j - 1, lo, hi);
  }

  /** Later turns leave alone a span of the header and the directory before entry i. */
  lemma {:induction false} KeptBefore(d: seq<byte>, ts: seq<TableImage>, i: nat, j: nat, lo: nat, hi: nat)
    requires |ts| % 0x1_0000 != 0 && i <= j && Room(ts, j, |d|)
    requires lo <= hi <= EntryOffset(i) && hi <= |d|
    ensures Room(ts, i, |d|)
    ensures Written(d, ts, j)[lo..hi] == Written(d, ts, i)[lo..hi]
    decreases j
  {
    RoomBelow(ts, i, j, |d|);
    if i < j {
      RoomShrinks(ts, j, |d|);
      KeptBefore(d, ts, i, j - 1, lo, hi);
      StepBefore(d, ts, j, lo, hi);
    }
  }

  /** One turn leaves alone a span past the directory and before its window. */
  lemma {:induction false} StepAfter(d: seq<byte>, ts: seq<TableImage>, j: nat, lo: nat, hi: nat)
    requires |ts| % 0x1_0000 != 0 && 0 < j && Room(ts, j, |d|)
    requires EntryOffset(|ts|) <= lo <= hi <= OffsetOf(ts, j - 1)
    ensures Room(ts, j - 1, |d|)
    ensures Written(d, ts, j)[lo..hi] == Written(d, ts, j - 1)[lo..hi]
  {
    RoomShrinks(ts, j, |d|);
    WrittenNext(d, ts, j - 1);
    TurnOutside(d, ts, j - 1, lo, hi);
  }

  /** One turn leaves alone a span before its entry. */
  lemma {:induction false} StepBefore(d: seq<byte>, ts: seq<TableImage>, j: nat, lo: nat, hi: nat)
    requires |ts| % 0x1_0000 != 0 && 0 < j && Room(ts, j, |d|)
    requires lo <= hi <= EntryOffset(j - 1)
    ensures Room(ts, j - 1, |d|)
    ensures Written(d, ts, j)[lo..hi] == Written(d, ts, j - 1)[lo..hi]
  {
    RoomShrinks(ts, j, |d|);
    WrittenNext(d, ts, j - 1);
    TurnOutside(d, ts, j - 1, lo, hi);
  }

  // ------------------------------------------------------------ what the loop leaves

  /**
   * Table i as the loop leaves it in w: its stored bytes at the start of
   * its window, and an entry with its tag, its offset, its length and the
   * word sum of its padded window.
   */
  predicate TableLaid(w: seq<byte>, ts: seq<TableImage>, i: nat)
    requires i < |ts| && OffsetOf(ts, i + 1) <= |w| < 0x8000_0000
  {
    OffsetNext(ts, i);
    Round4Bounds(|ts[i].image|);
    var a, b := OffsetOf(ts, i), OffsetOf(ts, i + 1);
    && BytesLaid(w, ts, i)
    && w[EntryOffset(i)..EntryOffset(i + 1)] == EntryImage(Entry(ts[i].tag, WordSum(w[a..b]), a, |ts[i].image|))
  }

  /** Table i's stored bytes at the start of its window. */
  predicate BytesLaid(w: seq<byte>, ts: seq<TableImage>, i: nat)
    requires i < |ts| && OffsetOf(ts, i + 1) <= |w|
  {
    OffsetNext(ts, i);
    Round4Bounds(|ts[i].image|);
    && Storable(ts[i])
    && w[OffsetOf(ts, i)..OffsetOf(ts, i) + |ts[i].image|] == Stored(ts[i])
  }

  /** The offset subtable stays as the loop wrote it first. */
  lemma {:induction false} HeaderLaid(d: seq<byte>, ts: seq<TableImage>)
    requires Fits(ts, |d|)
    ensures Written(d, ts, |ts|)[..12] == HeaderImage(HeaderOf(|ts| % 0x1_0000))
  {
    KeptBefore(d, ts, 0, |ts|, 0, 12);
    OverwriteAt(d, 0, HeaderImage(HeaderOf(|ts| % 0x1_0000)));
    assert Written(d, ts, |ts|)[..12] == Written(d, ts, |ts|)[0..12];
  }

  /** Every table is laid out in the last turn's bytes. */
  lemma {:induction false} Laid(d: seq<byte>, ts: seq<TableImage>, i: nat)
    requires Fits(ts, |d|) && i < |ts|
    ensures OffsetOf(ts, i + 1) <= |d| && TableLaid(Written(d, ts, |ts|), ts, i)
  {
    KeptBoth(d, ts, i);
    WrittenNext(d, ts, i);
    TurnLaid(d, ts, i);
    LaidKept(Written(d, ts, i + 1), Written(d, ts, |ts|), ts, i);
  }

  /** Every table's stored bytes are in the last turn's bytes. */
  lemma {:induction false} LaidBytes(d: seq<byte>, ts: seq<TableImage>, i: nat)
    requires Fits(ts, |d|) && i < |ts|
    ensures OffsetOf(ts, i + 1) <= |d| && BytesLaid(Written(d, ts, |ts|), ts, i)
  {
    Laid(d, ts, i);
  }

  /** The turns after table i's leave its window and its entry alone. */
  lemma {:induction false} KeptBoth(d: seq<byte>, ts: seq<TableImage>, i: nat)
    requires Fits(ts, |d|) && i < |ts|
    ensures Room(ts, i + 1, |d|) && OffsetOf(ts, i + 1) <= |d|
    ensures Written(d, ts, |ts|)[OffsetOf(ts, i)..OffsetOf(ts, i + 1)] == Written(d, ts, i + 1)[OffsetOf(ts, i)..OffsetOf(ts, i + 1)]
    ensures Written(d, ts, |ts|)[EntryOffset(i)..EntryOffset(i + 1)] == Written(d, ts, i + 1)[EntryOffset(i)..EntryOffset(i + 1)]
  {
    OffsetMono(ts, i + 1, |ts|);
    RoomBelow(ts, i + 1, |ts|, |d|);
    OffsetNext(ts, i);
    KeptAfter(d, ts, i + 1, |ts|, OffsetOf(ts, i), OffsetOf(ts, i + 1));
    KeptBefore(d, ts, i + 1, |ts|, EntryOffset(i), EntryOffset(i + 1));
  }

  /** Turn i lays table i out. */
  lemma {:induction false} TurnLaid(d: seq<byte>, ts: seq<TableImage>, i: nat)
    requires i < |ts| && Room(ts, i + 1, |d|) && |ts| % 0x1_0000 != 0
    ensures OffsetOf(ts, i + 1) <= |d| && TableLaid(Turn(d, ts, i), ts, i)
  {
    RoomShrinks(ts, i + 1, |d|);
    Round4Bounds(|ts[i].image|);
    var x := Turn(d, ts, i);
    var placed := Placed(Written(d, ts, i), ts, i);
    TurnWindow(d, ts, i);
    TurnEntry(d, ts, i);
    EntryOfSum(ts, i, placed);
    LaidIs(x, ts, i, x[OffsetOf(ts, i)..OffsetOf(ts, i + 1)]);
  }

  /** Turn i's window: the table's stored bytes, then what was there before. */
  lemma {:induction false} TurnWindow(d: seq<byte>, ts: seq<TableImage>, i: nat)
    requires i < |ts| && Room(ts, i + 1, |d|) && |ts| % 0x1_0000 != 0
    ensures Room(ts, i, |d|) && OffsetOf(ts, i) + |ts[i].image| <= OffsetOf(ts, i + 1) <= |d|
    ensures Turn(d, ts, i)[OffsetOf(ts, i)..OffsetOf(ts, i) + |ts[i].image|] == Stored(ts[i])
    ensures Turn(d, ts, i)[OffsetOf(ts, i)..OffsetOf(ts, i + 1)] == Placed(Written(d, ts, i), ts, i)[OffsetOf(ts, i)..OffsetOf(ts, i + 1)]
  {
    RoomShrinks(ts, i + 1, |d|);
    Round4Bounds(|ts[i].image|);
    var w := Written(d, ts, i);
    var placed := Placed(w, ts, i);
    WindowAfterTwoWrites(w, OffsetOf(ts, i), OffsetOf(ts, i + 1), Stored(ts[i]), EntryOffset(i),
      EntryImage(EntryOf(ts, i, placed)));
  }

  /** A window written and then left alone by a write before it. */
  lemma {:induction false} WindowAfterTwoWrites(w: seq<byte>, a: nat, b: nat, st: seq<byte>, p: nat, ent: seq<byte>)
    requires a + |st| <= b <= |w| && p + |ent| <= a
    ensures var placed := Overwrite(w, a, st);
      var after := Overwrite(placed, p, ent);
      after[a..a + |st|] == st && after[a..b] == placed[a..b]
  {
    var placed := Overwrite(w, a, st);
    var after := Overwrite(placed, p, ent);
    TwoWrites(w, placed, after, a, b, st, p, ent);
    CarryOver(after, after, a, b, w[a..b], st);
  }

  /** Turn i's entry span holds the entry it computed. */
  lemma {:induction false} TurnEntry(d: seq<byte>, ts: seq<TableImage>, i: nat)
    requires i < |ts| && Room(ts, i + 1, |d|) && |ts| % 0x1_0000 != 0
    ensures Room(ts, i, |d|) && OffsetOf(ts, i + 1) <= |d|
    ensures Turn(d, ts, i)[EntryOffset(i)..EntryOffset(i + 1)] == EntryImage(EntryOf(ts, i, Placed(Written(d, ts, i), ts, i)))
  {
    RoomShrinks(ts, i + 1, |d|);
    var w := Written(d, ts, i);
    var placed := Placed(w, ts, i);
    OverwriteAt(placed, EntryOffset(i), EntryImage(EntryOf(ts, i, placed)));
  }

  /** The entry's checksum is the word sum of the table's padded window. */
  lemma {:induction false} EntryOfSum(ts: seq<TableImage>, i: nat, placed: seq<byte>)
    requires i < |ts| && OffsetOf(ts, i + 1) <= |placed| < 0x8000_0000
    ensures OffsetOf(ts, i) <= OffsetOf(ts, i + 1)
    ensures EntryOf(ts, i, placed) == Entry(ts[i].tag, WordSum(placed[OffsetOf(ts, i)..OffsetOf(ts, i + 1)]), OffsetOf(ts, i), |ts[i].image|)
  {
    OffsetNext(ts, i);
    Round4Bounds(|ts[i].image|);
    PartialSumWhole(placed[OffsetOf(ts, i)..OffsetOf(ts, i + 1)]);
  }

  lemma {:induction false} LaidKept(x: seq<byte>, y: seq<byte>, ts: seq<TableImage>, i: nat)
    requires i < |ts| && OffsetOf(ts, i + 1) <= |x| == |y| < 0x8000_0000 && TableLaid(x, ts, i)
    requires y[OffsetOf(ts, i)..OffsetOf(ts, i + 1)] == x[OffsetOf(ts, i)..OffsetOf(ts, i + 1)]
    requires y[EntryOffset(i)..EntryOffset(i + 1)] == x[EntryOffset(i)..EntryOffset(i + 1)]
    ensures TableLaid(y, ts, i)
  {
    var a, b, n := OffsetOf(ts, i), OffsetOf(ts, i + 1), |ts[i].image|;
    OffsetNext(ts, i);
    Round4Bounds(n);
    SliceOfSlice(y, a, b, 0, n, a, a + n);
    SliceOfSlice(x, a, b, 0, n, a, a + n);
  }

  /** Stored bytes at the start of a window survive into a later snapshot that keeps the window. */
  lemma {:induction false} CarryOver(x: seq<byte>, y: seq<byte>, a: nat, b: nat, before: seq<byte>, stored: seq<byte>)
    requires a <= b <= |x| == |y| && |stored| <= |before| == b - a
    requires x[a..b] == Overwrite(before, 0, stored) && y[a..b] == x[a..b]
    ensures y[a..a + |stored|] == stored
  {
    OverwriteAt(before, 0, stored);
    SliceOfSlice(y, a, b, 0, |stored|, a, a + |stored|);
  }

  lemma {:induction false} LaidIs(y: seq<byte>, ts: seq<TableImage>, i: nat, window: seq<byte>)
    requires i < |ts| && Storable(ts[i]) && OffsetOf(ts, i + 1) <= |y| < 0x8000_0000
    requires OffsetOf(ts, i) + Round4(|ts[i].image|) == OffsetOf(ts, i + 1) && OffsetOf(ts, i) + |ts[i].image| <= |y|
    requires window == y[OffsetOf(ts, i)..OffsetOf(ts, i + 1)]
    requires y[OffsetOf(ts, i)..OffsetOf(ts, i) + |ts[i].image|] == Stored(ts[i])
    requires y[EntryOffset(i)..EntryOffset(i + 1)] == EntryImage(Entry(ts[i].tag, WordSum(window), OffsetOf(ts, i), |ts[i].image|))
    ensures TableLaid(y, ts, i)
  {
  }

  // ------------------------------------------------------------ the finished file

  /** The adjustment word, when there is one, lies in the last head table's window, past the directory, on a word boundary. */
  lemma {:induction false} AdjustmentPlace(ts: seq<TableImage>, len: nat, h: nat)
    requires Fits(ts, len) && LastHead(ts, |ts|) == Some(h)
    ensures AdjustmentAt(ts, |ts|) == Some(OffsetOf(ts, h) + 8)
    ensures EntryOffset(|ts|) <= OffsetOf(ts, h) && OffsetOf(ts, h) + 12 <= OffsetOf(ts, h + 1) <= len
    ensures (OffsetOf(ts, h) + 8) % 4 == 0
  {
    AdjustmentInside(ts, h, len);
    OffsetAligned(ts, h);
  }

  /** The file, given the snapshot w the loop leaves: w itself, or w with the adjustment word stored. */
  predicate Finished(w: seq<byte>, ts: seq<TableImage>, f: seq<byte>)
    requires Fits(ts, |w|)
  {
    match LastHead(ts, |ts|)
    case None => f == w
    case Some(h) =>
      AdjustmentInside(ts, h, |w|);
      f == Overwrite(w, OffsetOf(ts, h) + 8, BE32(Adjustment(WordSum(w))))
  }

  lemma {:induction false} AssembledFinished(d: seq<byte>, ts: seq<TableImage>)
    requires Fits(ts, |d|)
    ensures Finished(Written(d, ts, |ts|), ts, Assembled(d, ts))
  {
    AdjustmentFits(ts, |d|);
    AdjustedFinished(Written(d, ts, |ts|), ts);
  }

  lemma {:induction false} AdjustedFinished(w: seq<byte>, ts: seq<TableImage>)
    requires Fits(ts, |w|)
    ensures AdjustmentAt(ts, |ts|).Some? ==> AdjustmentAt(ts, |ts|).value + 4 <= |w|
    ensures Finished(w, ts, AdjustedAt(w, AdjustmentAt(ts, |ts|)))
  {
    AdjustmentFits(ts, |w|);
  }

  /** A span the adjustment word does not touch is as the loop left it. */
  lemma {:induction false} FinishedOutside(w: seq<byte>, ts: seq<TableImage>, f: seq<byte>, lo: nat, hi: nat)
    requires Fits(ts, |w|) && Finished(w, ts, f) && lo <= hi <= |w|
    requires LastHead(ts, |ts|).Some? ==>
             var h := LastHead(ts, |ts|).value; hi <= OffsetOf(ts, h) + 8 || OffsetOf(ts, h) + 12 <= lo
    ensures |f| == |w| && f[lo..hi] == w[lo..hi]
  {
    if LastHead(ts, |ts|).Some? {
      var h := LastHead(ts, |ts|).value;
      AdjustmentPlace(ts, |w|, h);
      OverwriteOutside(w, OffsetOf(ts, h) + 8, BE32(Adjustment(WordSum(w))), lo, hi);
    }
  }

  /** A head table's window whose stored bytes have a zero third word sums, checked, to its plain word sum. */
  lemma {:induction false} HeadWindowSum(window: seq<byte>, stored: seq<byte>, image: seq<byte>, v: u32)
    requires 12 <= |image| <= |window| && stored == Overwrite(image, 8, BE32(0)) && window[..|image|] == stored
    ensures Recomputed(window, true) == WordSum(window)
    ensures Recomputed(Overwrite(window, 8, BE32(v)), true) == WordSum(window)
  {
    OverwriteAt(image, 8, BE32(0));
    SliceOfSlice(window, 0, |image|, 8, 12, 8, 12);
    assert window[..|image|] == window[0..|image|];
    OverwriteSame(window, 8, BE32(0));
    HeadCancellation(window);
    HeadAdjustmentIgnored(window, v);
  }

  // ------------------------------------------------------------ the finished file

  /*
   * The theorems below are stated twice: over any snapshot w the loop may
   * leave and the file f that finishing it gives, and then for the file
   * `Serialize` assembles in a buffer that held d.
   */

  /** The file starts with the offset subtable for the count cast to 16 bits. */
  lemma {:induction false} FinishedHeader(w: seq<byte>, ts: seq<TableImage>, f: seq<byte>)
    requires Fits(ts, |w|) && Finished(w, ts, f) && w[..12] == HeaderImage(HeaderOf(|ts| % 0x1_0000))
    ensures |f| == |w| && f[..12] == HeaderImage(HeaderOf(|ts| % 0x1_0000))
    ensures U16At(f, 4) == |ts| % 0x1_0000
  {
    if LastHead(ts, |ts|).Some? {
      AdjustmentPlace(ts, |w|, LastHead(ts, |ts|).value);
    }
    FinishedOutside(w, ts, f, 0, 12);
    assert f[..12] == f[0..12] && w[..12] == w[0..12];
    HeaderCount(HeaderOf(|ts| % 0x1_0000), f);
  }

  /** Every directory entry is as the loop wrote it: the adjustment word lies past the directory. */
  lemma {:induction false} EntryKept(w: seq<byte>, ts: seq<TableImage>, f: seq<byte>, i: nat)
    requires Fits(ts, |w|) && Finished(w, ts, f) && i < |ts|
    ensures EntryOffset(i + 1) <= |w| == |f|
    ensures f[EntryOffset(i)..EntryOffset(i + 1)] == w[EntryOffset(i)..EntryOffset(i + 1)]
  {
    OffsetMono(ts, |ts|, |ts|);
    if LastHead(ts, |ts|).Some? {
      AdjustmentPlace(ts, |w|, LastHead(ts, |ts|).value);
    }
    FinishedOutside(w, ts, f, EntryOffset(i), EntryOffset(i + 1));
  }

  /** Every window but the last head table's is as the loop left it. */
  lemma {:induction false} OtherWindow(w: seq<byte>, ts: seq<TableImage>, f: seq<byte>, i: nat)
    requires Fits(ts, |w|) && Finished(w, ts, f) && i < |ts| && LastHead(ts, |ts|) != Some(i)
    ensures OffsetOf(ts, i) <= OffsetOf(ts, i + 1) <= |w| == |f|
    ensures f[OffsetOf(ts, i)..OffsetOf(ts, i + 1)] == w[OffsetOf(ts, i)..OffsetOf(ts, i + 1)]
  {
    OffsetMono(ts, i, i + 1);
    OffsetMono(ts, i + 1, |ts|);
    if LastHead(ts, |ts|).Some? {
      var h := LastHead(ts, |ts|).value;
      AdjustmentPlace(ts, |w|, h);
      if i < h {
        OffsetMono(ts, i + 1, h);
      } else {
        OffsetMono(ts, h + 1, i);
      }
    }
    FinishedOutside(w, ts, f, OffsetOf(ts, i), OffsetOf(ts, i + 1));
  }

  /** The last head table's window is the loop's window with the adjustment stored as its third word. */
  lemma {:induction false} AdjustedWindow(w: seq<byte>, ts: seq<TableImage>, f: seq<byte>, h: nat)
    requires Fits(ts, |w|) && Finished(w, ts, f) && LastHead(ts, |ts|) == Some(h)
    ensures OffsetOf(ts, h) + 12 <= OffsetOf(ts, h + 1) <= |w| == |f|
    ensures f[OffsetOf(ts, h)..OffsetOf(ts, h + 1)]
              == Overwrite(w[OffsetOf(ts, h)..OffsetOf(ts, h + 1)], 8, BE32(Adjustment(WordSum(w))))
  {
    AdjustmentPlace(ts, |w|, h);
    OverwriteWindow(w, OffsetOf(ts, h), OffsetOf(ts, h + 1), OffsetOf(ts, h) + 8, BE32(Adjustment(WordSum(w))));
  }

  /** Table i's stored bytes stand at the start of its window. */
  lemma {:induction false} StoredBytes(w: seq<byte>, ts: seq<TableImage>, i: nat)
    requires i < |ts| && OffsetOf(ts, i + 1) <= |w| < 0x8000_0000 && BytesLaid(w, ts, i)
    ensures Storable(ts[i]) && OffsetOf(ts, i) + |ts[i].image| <= OffsetOf(ts, i + 1)
    ensures w[OffsetOf(ts, i)..OffsetOf(ts, i) + |ts[i].image|] == Stored(ts[i])
  {
    OffsetNext(ts, i);
    Round4Bounds(|ts[i].image|);
  }

  /** What `ValidateChecksum` recomputes over table i's window of the file is the sum its entry holds. */
  lemma {:induction false} WindowChecked(w: seq<byte>, ts: seq<TableImage>, f: seq<byte>, i: nat)
    requires Fits(ts, |w|) && Finished(w, ts, f) && i < |ts| && OffsetOf(ts, i + 1) <= |w| && BytesLaid(w, ts, i)
    ensures OffsetOf(ts, i + 1) == OffsetOf(ts, i) + Round4(|ts[i].image|) && |f| == |w|
    ensures Storable(ts[i]) && (IsHeadTag(ts[i].tag) ==> |ts[i].image| >= 12)
    ensures var a, b := OffsetOf(ts, i), OffsetOf(ts, i + 1);
            Recomputed(f[a..b], IsHeadTag(ts[i].tag)) == WordSum(w[a..b])
  {
    OffsetNext(ts, i);
    Round4Bounds(|ts[i].image|);
    var a, b, n := OffsetOf(ts, i), OffsetOf(ts, i + 1), |ts[i].image|;
    assert w[a..b][..n] == Stored(ts[i]) by {
      SliceOfSlice(w, a, b, 0, n, a, a + n);
      assert w[a..b][..n] == w[a..b][0..n];
    }
    if LastHead(ts, |ts|) == Some(i) {
      AdjustedWindow(w, ts, f, i);
      HeadWindowSum(w[a..b], Stored(ts[i]), ts[i].image, Adjustment(WordSum(w)));
    } else {
      OtherWindow(w, ts, f, i);
      if IsHeadTag(ts[i].tag) {
        HeadWindowSum(w[a..b], Stored(ts[i]), ts[i].image, 0);
      }
    }
  }

  /** Entry i names table i's tag, offset and length, and `ValidateChecksum` accepts it against the file. */
  lemma {:induction false} FinishedEntry(w: seq<byte>, ts: seq<TableImage>, f: seq<byte>, i: nat)
    requires Fits(ts, |w|) && Finished(w, ts, f) && i < |ts| && OffsetOf(ts, i + 1) <= |w| && TableLaid(w, ts, i)
    ensures EntryOffset(i + 1) <= |f|
    ensures var e := ReadEntry(f, EntryOffset(i));
            && e.tag == ts[i].tag && e.offset == OffsetOf(ts, i) && e.length == |ts[i].image|
            && ValidateChecksum(f, e) == Ok(())
  {
    OffsetNext(ts, i);
    Round4Bounds(|ts[i].image|);
    var a, b := OffsetOf(ts, i), OffsetOf(ts, i + 1);
    var e := Entry(ts[i].tag, WordSum(w[a..b]), a, |ts[i].image|);
    assert ReadEntry(f, EntryOffset(i)) == e by {
      EntryKept(w, ts, f, i);
      EntryDecodes(e, f, EntryOffset(i));
    }
    assert ValidateChecksum(f, e) == Ok(()) by {
      WindowChecked(w, ts, f, i);
      Accepted(f, e, a, b);
    }
  }

  /** An entry whose window lies in the font and recomputes to its sum passes `ValidateChecksum`. */
  lemma {:induction false} Accepted(f: seq<byte>, e: Entry, a: nat, b: nat)
    requires e.offset == a && a + Round4(e.length) == b <= |f| && b < 0x8000_0000
    requires IsHeadTag(e.tag) ==> e.length >= 12
    requires e.checkSum == Recomputed(f[a..b], IsHeadTag(e.tag))
    ensures ValidateChecksum(f, e) == Ok(())
  {
    Round4Bounds(e.length);
    ValidateAccepts(f, e);
  }

  /** Adding the adjustment for a sum to that sum gives 0xB1B0AFBA, modulo 2^32. */
  lemma {:induction false} AdjustedSum(s: int)
    ensures (s + Adjustment(s % Modulus)) % Modulus == ChecksumTarget
  {
    var r := s % Modulus;
    AddMod(s, Adjustment(r));
    if r <= ChecksumTarget {
      assert r + Adjustment(r) == ChecksumTarget;
    } else {
      assert r + Adjustment(r) == ChecksumTarget + Modulus;
    }
  }

  /** Storing the adjustment in a zero aligned word brings the word sum to 0xB1B0AFBA. */
  lemma {:induction false} AdjustedWordSum(w: seq<byte>, at: nat, f: seq<byte>)
    requires at % 4 == 0 && at + 4 <= |w| && U32At(w, at) == 0
    requires f == Overwrite(w, at, BE32(Adjustment(WordSum(w))))
    ensures WordSum(f) == ChecksumTarget
  {
    OverwriteWord(w, at, Adjustment(WordSum(w)));
    AdjustedSum(Sum(Words(w)));
  }

  /** With a head table, the file is the loop's bytes with the adjustment in the last head table's third word. */
  lemma {:induction false} FinishedLast(w: seq<byte>, ts: seq<TableImage>, f: seq<byte>, h: nat)
    requires Fits(ts, |w|) && Finished(w, ts, f) && LastHead(ts, |ts|) == Some(h)
    ensures EntryOffset(|ts|) <= OffsetOf(ts, h) && OffsetOf(ts, h) + 12 <= OffsetOf(ts, h + 1) <= |w|
    ensures (OffsetOf(ts, h) + 8) % 4 == 0 && IsHeadTag(ts[h].tag)
    ensures f == Overwrite(w, OffsetOf(ts, h) + 8, BE32(Adjustment(WordSum(w))))
  {
    AdjustmentPlace(ts, |w|, h);
  }

  /** Stored bytes of a head table have a zero third word. */
  lemma {:induction false} ZeroThirdWord(w: seq<byte>, a: nat, image: seq<byte>)
    requires 12 <= |image| && a + |image| <= |w| && w[a..a + |image|] == Overwrite(image, 8, BE32(0))
    ensures U32At(w, a + 8) == 0
  {
    OverwriteAt(image, 8, BE32(0));
    SliceOfSlice(w, a, a + |image|, 8, 12, a + 8, a + 12);
    BE32RoundTrip(0, w, a + 8);
  }

  /** With a head table, every word of the file adds up to 0xB1B0AFBA. */
  lemma {:induction false} FinishedSum(w: seq<byte>, ts: seq<TableImage>, f: seq<byte>, h: nat)
    requires Fits(ts, |w|) && Finished(w, ts, f) && LastHead(ts, |ts|) == Some(h)
    requires OffsetOf(ts, h + 1) <= |w| && BytesLaid(w, ts, h)
    ensures WordSum(f) == ChecksumTarget
  {
    var a := OffsetOf(ts, h);
    FinishedLast(w, ts, f, h);
    StoredBytes(w, ts, h);
    assert Stored(ts[h]) == Overwrite(ts[h].image, 8, BE32(0));
    HeadSum(w, f, a, ts[h].image);
  }

  /** A head image stored with a zeroed third word, then the adjustment stored over it: the words add up to 0xB1B0AFBA. */
  lemma {:induction false} HeadSum(w: seq<byte>, f: seq<byte>, a: nat, image: seq<byte>)
    requires (a + 8) % 4 == 0 && 12 <= |image| && a + |image| <= |w|
    requires w[a..a + |image|] == Overwrite(image, 8, BE32(0))
    requires f == Overwrite(w, a + 8, BE32(Adjustment(WordSum(w))))
    ensures WordSum(f) == ChecksumTarget
  {
    ZeroThirdWord(w, a, image);
    AdjustedWordSum(w, a + 8, f);
  }

  /** Two sequences that agree on a window agree on its start. */
  lemma {:induction false} InnerSame(x: seq<byte>, y: seq<byte>, a: nat, b: nat, n: nat)
    requires a + n <= b <= |x| && b <= |y| && x[a..b] == y[a..b]
    ensures x[a..a + n] == y[a..a + n]
  {
    SliceOfSlice(x, a, b, 0, n, a, a + n);
    SliceOfSlice(y, a, b, 0, n, a, a + n);
  }

  /** A head table's bytes in f are its image with their own third word. */
  lemma {:induction false} OwnThirdWord(f: seq<byte>, a: nat, image: seq<byte>, x: seq<byte>)
    requires 12 <= |image| && |x| == 4 && a + |image| <= |f| && f[a..a + |image|] == Overwrite(image, 8, x)
    ensures f[a..a + |image|] == Overwrite(image, 8, f[a + 8..a + 12])
  {
    OverwriteAt(image, 8, x);
    SliceOfSlice(f, a, a + |image|, 8, 12, a + 8, a + 12);
  }


  /** A table other than head: its own bytes stand at its offset in the file. */
  lemma {:induction false} PlainTable(w: seq<byte>, ts: seq<TableImage>, f: seq<byte>, i: nat)
    requires Fits(ts, |w|) && Finished(w, ts, f) && i < |ts| && !IsHeadTag(ts[i].tag)
    requires OffsetOf(ts, i + 1) <= |w| && BytesLaid(w, ts, i)
    ensures OffsetOf(ts, i) + |ts[i].image| <= |f|
    ensures f[OffsetOf(ts, i)..OffsetOf(ts, i) + |ts[i].image|] == ts[i].image
  {
    OtherBytes(w, ts, f, i);
  }

  /** A head table: its own bytes stand at its offset, with whatever third word the file holds. */
  lemma {:induction false} HeadTable(w: seq<byte>, ts: seq<TableImage>, f: seq<byte>, i: nat)
    requires Fits(ts, |w|) && Finished(w, ts, f) && i < |ts| && IsHeadTag(ts[i].tag)
    requires OffsetOf(ts, i + 1) <= |w| && BytesLaid(w, ts, i)
    ensures 12 <= |ts[i].image| && OffsetOf(ts, i) + |ts[i].image| <= |f|
    ensures var a, n := OffsetOf(ts, i), |ts[i].image|;
            f[a..a + n] == Overwrite(ts[i].image, 8, f[a + 8..a + 12])
  {
    if LastHead(ts, |ts|) == Some(i) {
      LastHeadBytes(w, ts, f, i);
      OwnThirdWord(f, OffsetOf(ts, i), ts[i].image, BE32(Adjustment(WordSum(w))));
    } else {
      EarlierHeadTable(w, ts, f, i);
    }
  }

  /** A head table that is not the last one keeps its zeroed third word. */
  lemma {:induction false} EarlierHeadTable(w: seq<byte>, ts: seq<TableImage>, f: seq<byte>, i: nat)
    requires Fits(ts, |w|) && Finished(w, ts, f) && i < |ts| && IsHeadTag(ts[i].tag)
    requires LastHead(ts, |ts|) != Some(i)
    requires OffsetOf(ts, i + 1) <= |w| && BytesLaid(w, ts, i)
    ensures 12 <= |ts[i].image| && OffsetOf(ts, i) + |ts[i].image| <= |f|
    ensures var a, n := OffsetOf(ts, i), |ts[i].image|;
            f[a..a + n] == Overwrite(ts[i].image, 8, f[a + 8..a + 12])
  {
    OtherBytes(w, ts, f, i);
    assert Stored(ts[i]) == Overwrite(ts[i].image, 8, BE32(0));
    OwnThirdWord(f, OffsetOf(ts, i), ts[i].image, BE32(0));
  }


  /** The last head table's bytes in the file are its image with the adjustment as its third word. */
  lemma {:induction false} LastHeadBytes(w: seq<byte>, ts: seq<TableImage>, f: seq<byte>, h: nat)
    requires Fits(ts, |w|) && Finished(w, ts, f) && LastHead(ts, |ts|) == Some(h)
    requires OffsetOf(ts, h + 1) <= |w| && BytesLaid(w, ts, h)
    ensures 12 <= |ts[h].image| && OffsetOf(ts, h) + |ts[h].image| <= |w| == |f|
    ensures f[OffsetOf(ts, h)..OffsetOf(ts, h) + |ts[h].image|] == Overwrite(ts[h].image, 8, BE32(Adjustment(WordSum(w))))
  {
    var a, n, x := OffsetOf(ts, h), |ts[h].image|, BE32(Adjustment(WordSum(w)));
    FinishedLast(w, ts, f, h);
    StoredBytes(w, ts, h);
    HeadBytes(w, f, a, ts[h].image, x);
  }

  /** A head table stored with a zero third word, and then the word x stored over it. */
  lemma {:induction false} HeadBytes(w: seq<byte>, f: seq<byte>, a: nat, image: seq<byte>, x: seq<byte>)
    requires 12 <= |image| && |x| == 4 && a + |image| <= |w|
    requires w[a..a + |image|] == Overwrite(image, 8, BE32(0)) && f == Overwrite(w, a + 8, x)
    ensures f[a..a + |image|] == Overwrite(image, 8, x)
  {
    OverwriteWindow(w, a, a + |image|, a + 8, x);
    OverwriteTwice(image, 8, BE32(0), x);
  }

  /** Every other table's bytes in the file are its stored bytes. */
  lemma {:induction false} OtherBytes(w: seq<byte>, ts: seq<TableImage>, f: seq<byte>, i: nat)
    requires Fits(ts, |w|) && Finished(w, ts, f) && i < |ts| && LastHead(ts, |ts|) != Some(i)
    requires OffsetOf(ts, i + 1) <= |w| && BytesLaid(w, ts, i)
    ensures Storable(ts[i]) && OffsetOf(ts, i) + |ts[i].image| <= |w| == |f|
    ensures f[OffsetOf(ts, i)..OffsetOf(ts, i) + |ts[i].image|] == Stored(ts[i])
  {
    StoredBytes(w, ts, i);
    OtherWindow(w, ts, f, i);
    InnerSame(f, w, OffsetOf(ts, i), OffsetOf(ts, i + 1), |ts[i].image|);
  }

  // ------------------------------------------------------------ the file `Serialize` assembles

  /** The file starts with the offset subtable; its count is the number of tables cast to 16 bits. */
  lemma {:induction false} FileHeader(d: seq<byte>, ts: seq<TableImage>)
    requires Fits(ts, |d|)
    ensures Assembled(d, ts)[..12] == HeaderImage(HeaderOf(|ts| % 0x1_0000))
    ensures U16At(Assembled(d, ts), 4) == |ts| % 0x1_0000
  {
    HeaderLaid(d, ts);
    AssembledFinished(d, ts);
    FinishedHeader(Written(d, ts, |ts|), ts, Assembled(d, ts));
  }

  /** Entry i names table i's tag, offset and length, and `ValidateChecksum` accepts it. */
  lemma {:induction false} FileEntry(d: seq<byte>, ts: seq<TableImage>, i: nat)
    requires Fits(ts, |d|) && i < |ts|
    ensures EntryOffset(i + 1) <= |d|
    ensures var e := ReadEntry(Assembled(d, ts), EntryOffset(i));
            && e.tag == ts[i].tag && e.offset == OffsetOf(ts, i) && e.length == |ts[i].image|
            && ValidateChecksum(Assembled(d, ts), e) == Ok(())
  {
    Laid(d, ts, i);
    AssembledFinished(d, ts);
    FinishedEntry(Written(d, ts, |ts|), ts, Assembled(d, ts), i);
  }

  /** With a head table, every word of the file adds up to 0xB1B0AFBA. */
  lemma {:induction false} WholeFileSum(d: seq<byte>, ts: seq<TableImage>)
    requires Fits(ts, |d|) && LastHead(ts, |ts|).Some?
    ensures WordSum(Assembled(d, ts)) == ChecksumTarget
  {
    var h := LastHead(ts, |ts|).value;
    LaidBytes(d, ts, h);
    AssembledFinished(d, ts);
    FinishedSum(Written(d, ts, |ts|), ts, Assembled(d, ts), h);
  }

  /** Table i's bytes stand at its offset; a head table's with its third word replaced. */
  lemma {:induction false} FileTable(d: seq<byte>, ts: seq<TableImage>, i: nat)
    requires Fits(ts, |d|) && i < |ts|
    ensures OffsetOf(ts, i) + |ts[i].image| <= |d|
    ensures var f, a, n := Assembled(d, ts), OffsetOf(ts, i), |ts[i].image|;
            && (!IsHeadTag(ts[i].tag) ==> f[a..a + n] == ts[i].image)
            && (IsHeadTag(ts[i].tag) ==> n >= 12 && f[a..a + n] == Overwrite(ts[i].image, 8, f[a + 8..a + 12]))
  {
    LaidBytes(d, ts, i);
    AssembledFinished(d, ts);
    if IsHeadTag(ts[i].tag) {
      HeadTable(Written(d, ts, |ts|), ts, Assembled(d, ts), i);
    } else {
      PlainTable(Written(d, ts, |ts|), ts, Assembled(d, ts), i);
    }
  }
}
