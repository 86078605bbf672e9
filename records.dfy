/**
 * Fixed-layout records.  The library writes and reads its table structs
 * as raw memory; every field is a big-endian wrapper, so on a
 * little-endian host a struct's bytes are its fields' big-endian images in
 * declaration order.  A layout lists the field types in that order; a
 * record value is the list of its field values.
 */
module Records {
  import opened Bytes

  /** The field types a struct is made of (Fixed, FWord, UFWord and LongDateTime are I32, I16, U16 and I64). */
  datatype Field = U8 | I8 | U16 | I16 | U32 | I32 | I64

  type Layout = seq<Field>

  function Width(f: Field): nat
  {
    match f
    case U8 => 1
    case I8 => 1
    case U16 => 2
    case I16 => 2
    case U32 => 4
    case I32 => 4
    case I64 => 8
  }

  /** The smallest value a field of type f holds. */
  function Lo(f: Field): int
  {
    match f
    case U8 => 0
    case I8 => -0x80
    case U16 => 0
    case I16 => -0x8000
    case U32 => 0
    case I32 => -0x8000_0000
    case I64 => -0x8000_0000_0000_0000
  }

  /** One more than the largest value a field of type f holds. */
  function Hi(f: Field): int
  {
    match f
    case U8 => 0x100
    case I8 => 0x80
    case U16 => 0x1_0000
    case I16 => 0x8000
    case U32 => 0x1_0000_0000
    case I32 => 0x8000_0000
    case I64 => 0x8000_0000_0000_0000
  }

  predicate Fits(f: Field, v: int)
  {
    Lo(f) <= v < Hi(f)
  }

  /** The field's two's-complement pattern, most significant byte first. */
  function EncodeField(f: Field, v: int): (s: seq<byte>)
    requires Fits(f, v)
    ensures |s| == Width(f)
  {
    match f
    case U8 => [v]
    case I8 => [Unsigned(8, v)]
    case U16 => BE16(v)
    case I16 => BE16(Unsigned(16, v))
    case U32 => BE32(v)
    case I32 => BE32(Unsigned(32, v))
    case I64 => BE64(Unsigned(64, v))
  }

  /** The value of a field of type f stored in the first bytes of s. */
  function DecodeField(f: Field, s: seq<byte>): int
    requires Width(f) <= |s|
  {
    match f
    case U8 => s[0]
    case I8 => Signed(8, s[0])
    case U16 => U16At(s, 0)
    case I16 => Signed(16, U16At(s, 0))
    case U32 => U32At(s, 0)
    case I32 => Signed(32, U32At(s, 0))
    case I64 => Signed(64, U64At(s, 0))
  }

  lemma {:induction false} FieldRoundTrip(f: Field, v: int, rest: seq<byte>)
    requires Fits(f, v)
    ensures |EncodeField(f, v)| == Width(f)
    ensures DecodeField(f, EncodeField(f, v) + rest) == v
  {
    var s := EncodeField(f, v) + rest;
    match f
    case U8 =>
    case I8 =>
    case U16 => BE16RoundTrip(v, s, 0);
    case I16 => BE16RoundTrip(Unsigned(16, v), s, 0);
    case U32 => BE32RoundTrip(v, s, 0);
    case I32 => BE32RoundTrip(Unsigned(32, v), s, 0);
    case I64 => BE64RoundTrip(Unsigned(64, v), s, 0);
  }

  lemma {:induction false} DecodeFieldFits(f: Field, s: seq<byte>)
    requires Width(f) <= |s|
    ensures Fits(f, DecodeField(f, s))
  {
  }

  function Size(layout: Layout): nat
  {
    if |layout| == 0 then 0 else Width(layout[0]) + Size(layout[1..])
  }

  predicate Conforms(layout: Layout, values: seq<int>)
  {
    |values| == |layout| && forall i :: 0 <= i < |layout| ==> Fits(layout[i], values[i])
  }

  /** What conforming to a non-empty layout says about its first field and the rest. */
  lemma {:induction false} ConformsTail(layout: Layout, values: seq<int>)
    requires Conforms(layout, values) && |layout| > 0
    ensures Fits(layout[0], values[0]) && Conforms(layout[1..], values[1..])
    ensures Encode(layout, values) == EncodeField(layout[0], values[0]) + Encode(layout[1..], values[1..])
  {
    assert forall i :: 0 <= i < |layout| - 1 ==> layout[1..][i] == layout[i + 1] && values[1..][i] == values[i + 1];
  }

  lemma {:induction false} ConformsConcat(a: Layout, b: Layout, u: seq<int>, v: seq<int>)
    requires Conforms(a, u) && Conforms(b, v)
    ensures Conforms(a + b, u + v)
  {
    assert forall i :: |a| <= i < |a| + |b| ==> (a + b)[i] == b[i - |a|] && (u + v)[i] == v[i - |a|];
  }

  lemma {:induction false} ConformsSplit(a: Layout, b: Layout, w: seq<int>)
    requires Conforms(a + b, w)
    ensures Conforms(a, w[..|a|]) && Conforms(b, w[|a|..]) && w == w[..|a|] + w[|a|..]
  {
    assert forall i :: 0 <= i < |b| ==> (a + b)[i + |a|] == b[i] && w[|a|..][i] == w[i + |a|];
  }

  function Encode(layout: Layout, values: seq<int>): (s: seq<byte>)
    requires Conforms(layout, values)
  {
    if |layout| == 0 then [] else EncodeField(layout[0], values[0]) + Encode(layout[1..], values[1..])
  }

  function Decode(layout: Layout, s: seq<byte>): seq<int>
    requires Size(layout) <= |s|
  {
    if |layout| == 0 then []
    else [DecodeField(layout[0], s)] + Decode(layout[1..], s[Width(layout[0])..])
  }

  lemma {:induction false} EncodeSize(layout: Layout, values: seq<int>)
    requires Conforms(layout, values)
    ensures |Encode(layout, values)| == Size(layout)
  {
    if layout != [] {
      FieldRoundTrip(layout[0], values[0], []);
      EncodeSize(layout[1..], values[1..]);
    }
  }

  /** Decoding the image of a record, whatever follows it, gives the record back. */
  lemma {:induction false} RoundTrip(layout: Layout, values: seq<int>, rest: seq<byte>)
    requires Conforms(layout, values)
    ensures |Encode(layout, values)| == Size(layout)
    ensures Decode(layout, Encode(layout, values) + rest) == values
  {
    EncodeSize(layout, values);
    if layout != [] {
      ConformsTail(layout, values);
      var head := EncodeField(layout[0], values[0]);
      var tail := Encode(layout[1..], values[1..]);
      FieldRoundTrip(layout[0], values[0], tail + rest);
      assert Encode(layout, values) + rest == head + (tail + rest);
      assert (head + (tail + rest))[Width(layout[0])..] == tail + rest;
      RoundTrip(layout[1..], values[1..], rest);
    }
  }

  /** Decoding a record's image on its own gives the record back. */
  lemma {:induction false} DecodeEncode(layout: Layout, values: seq<int>)
    requires Conforms(layout, values)
    ensures |Encode(layout, values)| == Size(layout)
    ensures Decode(layout, Encode(layout, values)) == values
  {
    RoundTrip(layout, values, []);
    AppendEmpty(Encode(layout, values));
  }

  lemma {:induction false} DecodeConforms(layout: Layout, s: seq<byte>)
    requires Size(layout) <= |s|
    ensures Conforms(layout, Decode(layout, s))
  {
    if layout != [] {
      DecodeFieldFits(layout[0], s);
      DecodeConforms(layout[1..], s[Width(layout[0])..]);
    }
  }

  lemma {:induction false} SizeConcat(a: Layout, b: Layout)
    ensures Size(a + b) == Size(a) + Size(b)
  {
    if a != [] {
      assert (a + b)[1..] == a[1..] + b;
      SizeConcat(a[1..], b);
    } else {
      assert a + b == b;
    }
  }

  /** The byte offset of field k within a record of the layout. */
  function Offset(layout: Layout, k: nat): nat
    requires k <= |layout|
  {
    if k == 0 then 0 else Width(layout[0]) + Offset(layout[1..], k - 1)
  }

  /** Field k's big-endian image lies at Offset(layout, k) of the record's image. */
  lemma {:induction false} EncodeFieldAt(layout: Layout, values: seq<int>, k: nat, pos: nat)
    requires Conforms(layout, values) && k < |layout| && pos == Offset(layout, k)
    ensures pos + Width(layout[k]) <= |Encode(layout, values)|
    ensures Encode(layout, values)[pos..pos + Width(layout[k])] == EncodeField(layout[k], values[k])
    decreases k
  {
    ConformsTail(layout, values);
    var head, tail := EncodeField(layout[0], values[0]), Encode(layout[1..], values[1..]);
    if k == 0 {
      DropPrefix(head, tail, |head|);
    } else {
      assert layout[1..][k - 1] == layout[k] && values[1..][k - 1] == values[k];
      EncodeFieldAt(layout[1..], values[1..], k - 1, pos - |head|);
      SliceOfTail(head, tail, pos, pos + Width(layout[k]), pos - |head|, pos - |head| + Width(layout[k]));
    }
  }

  /** The image of two layouts laid end to end is the two images laid end to end. */
  lemma {:induction false} EncodeConcat(a: Layout, b: Layout, u: seq<int>, v: seq<int>)
    requires Conforms(a, u) && Conforms(b, v)
    ensures Conforms(a + b, u + v)
    ensures Encode(a + b, u + v) == Encode(a, u) + Encode(b, v)
  {
    if a == [] {
      assert a + b == b && u + v == v;
    } else {
      assert (a + b)[1..] == a[1..] + b && (u + v)[1..] == u[1..] + v;
      EncodeConcat(a[1..], b, u[1..], v);
    }
  }
}

/** Arrays of records laid end to end, as `MemoryMarshal.Cast` between a struct array and bytes sees them. */
module RecordArrays {
  import opened Bytes
  import opened Records

  predicate AllConform(layout: Layout, rows: seq<seq<int>>)
  {
    forall i :: 0 <= i < |rows| ==> Conforms(layout, rows[i])
  }

  function EncodeArray(layout: Layout, rows: seq<seq<int>>): (s: seq<byte>)
    requires AllConform(layout, rows)
    ensures |s| == Times(|rows|, Size(layout))
  {
    if |rows| == 0 then []
    else
      EncodeSize(layout, rows[0]);
      Encode(layout, rows[0]) + EncodeArray(layout, rows[1..])
  }

  /** n records read one after another from the start of s. */
  function DecodeArray(layout: Layout, s: seq<byte>, n: nat): (rows: seq<seq<int>>)
    requires Times(n, Size(layout)) <= |s|
    ensures |rows| == n && AllConform(layout, rows)
  {
    if n == 0 then []
    else
      DecodeConforms(layout, s);
      [Decode(layout, s)] + DecodeArray(layout, s[Size(layout)..], n - 1)
  }

  /** The first record, then the rest: one unfolding of DecodeArray. */
  lemma {:induction false} DecodeArrayCons(layout: Layout, s: seq<byte>, n: nat, first: seq<int>, others: seq<seq<int>>)
    requires n > 0 && Size(layout) <= |s| && Times(n, Size(layout)) <= |s|
    requires Decode(layout, s) == first
    requires DecodeArray(layout, s[Size(layout)..], n - 1) == others
    ensures DecodeArray(layout, s, n) == [first] + others
  {
  }

  /** Decoding the image of an array of records, whatever follows it, gives the records back. */
  lemma {:induction false} ArrayRoundTrip(layout: Layout, rows: seq<seq<int>>, rest: seq<byte>)
    requires AllConform(layout, rows)
    ensures Times(|rows|, Size(layout)) <= |EncodeArray(layout, rows) + rest|
    ensures DecodeArray(layout, EncodeArray(layout, rows) + rest, |rows|) == rows
  {
    if |rows| > 0 {
      var head, tail := Encode(layout, rows[0]), EncodeArray(layout, rows[1..]);
      var s := EncodeArray(layout, rows) + rest;
      Assoc(head, tail, rest);
      Records.RoundTrip(layout, rows[0], tail + rest);
      DropPrefix(head, tail + rest, Size(layout));
      ArrayRoundTrip(layout, rows[1..], rest);
      DecodeArrayCons(layout, s, |rows|, rows[0], rows[1..]);
      assert rows == [rows[0]] + rows[1..];
    } else {
      assert rows == [];
    }
  }

  lemma {:induction false} EncodeArrayConcat(layout: Layout, a: seq<seq<int>>, b: seq<seq<int>>)
    requires AllConform(layout, a) && AllConform(layout, b)
    ensures AllConform(layout, a + b)
    ensures EncodeArray(layout, a + b) == EncodeArray(layout, a) + EncodeArray(layout, b)
  {
    if |a| == 0 {
      assert a + b == b;
    } else {
      assert (a + b)[1..] == a[1..] + b;
      EncodeArrayConcat(layout, a[1..], b);
    }
  }

  /** One more record at the end of the array: one more image at the end of its bytes. */
  lemma {:induction false} EncodeArraySnoc(layout: Layout, rows: seq<seq<int>>, i: nat)
    requires AllConform(layout, rows) && i < |rows|
    ensures AllConform(layout, rows[..i]) && AllConform(layout, rows[..i + 1])
    ensures EncodeArray(layout, rows[..i + 1]) == EncodeArray(layout, rows[..i]) + Encode(layout, rows[i])
  {
    var a, b := rows[..i], [rows[i]];
    assert rows[..i + 1] == a + b;
    EncodeArrayConcat(layout, a, b);
    assert b[1..] == [];
    AppendEmpty(Encode(layout, rows[i]));
  }

  /** Record i of an array image sits at byte pos = i * size. */
  lemma {:induction false} EncodeArrayAt(layout: Layout, rows: seq<seq<int>>, i: nat, pos: nat)
    requires AllConform(layout, rows) && i < |rows|
    requires pos == Times(i, Size(layout))
    ensures pos + Size(layout) <= |EncodeArray(layout, rows)|
    ensures EncodeArray(layout, rows)[pos..pos + Size(layout)] == Encode(layout, rows[i])
  {
    var a, b := rows[..i], rows[i..];
    assert rows == a + b;
    EncodeArrayConcat(layout, a, b);
    EncodeSize(layout, rows[i]);
    var head, tail := Encode(layout, b[0]), EncodeArray(layout, b[1..]);
    assert EncodeArray(layout, b) == head + tail;
    var pre := EncodeArray(layout, a);
    assert EncodeArray(layout, rows) == pre + (head + tail);
    assert b[0] == rows[i];
    assert |pre| == pos && |head| == Size(layout);
    SliceAt(EncodeArray(layout, rows), pre, head, tail, pos, Size(layout));
  }
}
