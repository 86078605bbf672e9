/**
 * The big-endian integer wrappers U16, U32, I16, I32 and I64.  Each keeps
 * in `internal` the value with its bytes already put into file order, so
 * that the wrapper's memory image on a little-endian host is the
 * big-endian image of the value; reading the wrapper undoes the swap.
 *
 * The C# integer a wrapper converts from and to is represented here by its
 * two's-complement bit pattern (`bv16`, `bv32`, `bv64`); for a signed type,
 * `value < 0` is the pattern's top bit.  The host byte order is the
 * parameter `littleEndian` (`BitConverter.IsLittleEndian` in `src/Utils/EndianTypes`).
 */
module EndianTypes {

  // ---------------------------------------------------------------- bytes

  /** The bytes of a 16-bit pattern in memory order on a little-endian host. */
  function Bytes16(b: bv16): seq<bv8>
  {
    [(b & 0xFF) as bv8, (b >> 8) as bv8]
  }

  function Bytes32(b: bv32): seq<bv8>
  {
    [(b & 0xFF) as bv8, ((b >> 8) & 0xFF) as bv8, ((b >> 16) & 0xFF) as bv8, (b >> 24) as bv8]
  }

  function Bytes64(b: bv64): seq<bv8>
  {
    [(b & 0xFF) as bv8, ((b >> 8) & 0xFF) as bv8, ((b >> 16) & 0xFF) as bv8, ((b >> 24) & 0xFF) as bv8,
     ((b >> 32) & 0xFF) as bv8, ((b >> 40) & 0xFF) as bv8, ((b >> 48) & 0xFF) as bv8, (b >> 56) as bv8]
  }

  function Reversed<T>(s: seq<T>): (r: seq<T>)
    ensures |r| == |s|
  {
    if s == [] then [] else Reversed(s[1..]) + [s[0]]
  }

  lemma {:induction false} Reversed2<T>(s: seq<T>)
    requires |s| == 2
    ensures Reversed(s) == [s[1], s[0]]
  {
    assert Reversed(s[1..]) == [s[1]];
  }

  lemma {:induction false} Reversed4<T>(s: seq<T>)
    requires |s| == 4
    ensures Reversed(s) == [s[3], s[2], s[1], s[0]]
  {
    var t := s[1..];
    assert Reversed(t[1..]) == [t[2], t[1]] by { Reversed2(t[1..]); }
  }

  lemma {:induction false} Reversed8<T>(s: seq<T>)
    requires |s| == 8
    ensures Reversed(s) == [s[7], s[6], s[5], s[4], s[3], s[2], s[1], s[0]]
  {
    var t := s[1..];
    var u := t[1..];
    var w := u[1..];
    assert Reversed(s) == Reversed(t) + [s[0]];
    assert Reversed(t) == Reversed(u) + [t[0]];
    assert Reversed(u) == Reversed(w) + [u[0]];
    assert Reversed(w) == Reversed(w[1..]) + [w[0]];
    Reversed4(w[1..]);
  }

  // ---------------------------------------------------------------- U16

  /** U16.Reverse. */
  function ReverseU16(littleEndian: bool, value: bv16): bv16
  {
    if littleEndian then ((value & 0x00FF) << 8) | ((value & 0xFF00) >> 8) else value
  }

  datatype U16 = U16(internal: bv16)

  /** `implicit operator U16(ushort)`. */
  function ToU16(littleEndian: bool, value: bv16): U16
  {
    U16(ReverseU16(littleEndian, value))
  }

  /** `implicit operator ushort(U16)`; also the value `ToString` formats. */
  function FromU16(littleEndian: bool, self: U16): bv16
  {
    ReverseU16(littleEndian, self.internal)
  }

  lemma {:induction false} ReverseU16SwapsBytes(value: bv16)
    ensures Bytes16(ReverseU16(true, value)) == Reversed(Bytes16(value))
  {
    Reversed2(Bytes16(value));
  }

  lemma {:induction false} ReverseU16Involution(littleEndian: bool, value: bv16)
    ensures ReverseU16(littleEndian, ReverseU16(littleEndian, value)) == value
  {
  }

  lemma {:induction false} U16RoundTrip(littleEndian: bool, value: bv16)
    ensures FromU16(littleEndian, ToU16(littleEndian, value)) == value
  {
    ReverseU16Involution(littleEndian, value);
  }

  /** On a little-endian host the wrapper's memory holds the value most significant byte first. */
  lemma {:induction false} U16MemoryIsBigEndian(value: bv16)
    ensures Bytes16(ToU16(true, value).internal) == [(value >> 8) as bv8, (value & 0xFF) as bv8]
  {
  }

  // ---------------------------------------------------------------- U32

  /** U32.Reverse. */
  function ReverseU32(littleEndian: bool, value: bv32): bv32
  {
    if littleEndian then
      ((value & 0x0000_00FF) << 24) |
      ((value & 0x0000_FF00) << 8) |
      ((value & 0x00FF_0000) >> 8) |
      ((value & 0xFF00_0000) >> 24)
    else value
  }

  datatype U32 = U32(internal: bv32)

  /** `implicit operator U32(uint)`. */
  function ToU32(littleEndian: bool, value: bv32): U32
  {
    U32(ReverseU32(littleEndian, value))
  }

  /** `implicit operator uint(U32)`; also the value `ToString` formats. */
  function FromU32(littleEndian: bool, self: U32): bv32
  {
    ReverseU32(littleEndian, self.internal)
  }

  lemma {:induction false} ReverseU32SwapsBytes(value: bv32)
    ensures Bytes32(ReverseU32(true, value)) == Reversed(Bytes32(value))
  {
    Reversed4(Bytes32(value));
  }

  lemma {:induction false} ReverseU32Involution(littleEndian: bool, value: bv32)
    ensures ReverseU32(littleEndian, ReverseU32(littleEndian, value)) == value
  {
  }

  lemma {:induction false} U32RoundTrip(littleEndian: bool, value: bv32)
    ensures FromU32(littleEndian, ToU32(littleEndian, value)) == value
  {
    ReverseU32Involution(littleEndian, value);
  }

  // ---------------------------------------------------------------- I16

  predicate Negative16(value: bv16) { value & 0x8000 != 0 }

  /** `rev` in I16.Reverse before the sign fix-up. */
  function RevI16(value: bv16): bv16
  {
    ((value & 0x007F) << 8) | (((value & 0x7F00) >> 8) + (if Negative16(value) then 0x0080 else 0))
  }

  /**
   * I16.Reverse.  `short.MinValue + rev` is the two's-complement sum, which,
   * since rev never reaches 0x8000, sets the sign bit.
   */
  function ReverseI16(littleEndian: bool, value: bv16): bv16
  {
    if littleEndian then
      var rev := RevI16(value);
      var sign := (value & 0x0080) != 0;
      if sign then 0x8000 + rev else rev
    else value
  }

  datatype I16 = I16(internal: bv16)

  function ToI16(littleEndian: bool, value: bv16): I16
  {
    I16(ReverseI16(littleEndian, value))
  }

  function FromI16(littleEndian: bool, self: I16): bv16
  {
    ReverseI16(littleEndian, self.internal)
  }

  /** The intermediate value fits in 15 bits, so the `(short)` casts never overflow. */
  lemma {:induction false} RevI16Bounded(value: bv16)
    ensures RevI16(value) < 0x8000
  {
  }

  lemma {:induction false} ReverseI16Case00(value: bv16)
    requires value & 0x8080 == 0
    ensures ReverseI16(true, value) == ReverseU16(true, value)
  {
  }

  lemma {:induction false} ReverseI16Case01(value: bv16)
    requires value & 0x8080 == 0x0080
    ensures ReverseI16(true, value) == ReverseU16(true, value)
  {
  }

  lemma {:induction false} ReverseI16Case10(value: bv16)
    requires value & 0x8080 == 0x8000
    ensures ReverseI16(true, value) == ReverseU16(true, value)
  {
  }

  lemma {:induction false} ReverseI16Case11(value: bv16)
    requires value & 0x8080 == 0x8080
    ensures ReverseI16(true, value) == ReverseU16(true, value)
  {
  }

  /** The piecewise signed reverse is the plain byte swap of the bit pattern. */
  lemma {:induction false} ReverseI16IsByteSwap(value: bv16)
    ensures ReverseI16(true, value) == ReverseU16(true, value)
    ensures Bytes16(ReverseI16(true, value)) == Reversed(Bytes16(value))
  {
    var s := value & 0x8080;
    if s == 0 {
      ReverseI16Case00(value);
    } else if s == 0x0080 {
      ReverseI16Case01(value);
    } else if s == 0x8000 {
      ReverseI16Case10(value);
    } else {
      ReverseI16Case11(value);
    }
    ReverseU16SwapsBytes(value);
  }

  /** The result is negative exactly when bit 7 of the input is set. */
  lemma {:induction false} ReverseI16Sign(value: bv16)
    ensures Negative16(ReverseI16(true, value)) <==> value & 0x0080 != 0
  {
    ReverseI16IsByteSwap(value);
  }

  lemma {:induction false} ReverseI16Involution(littleEndian: bool, value: bv16)
    ensures ReverseI16(littleEndian, ReverseI16(littleEndian, value)) == value
  {
    if littleEndian {
      ReverseI16IsByteSwap(value);
      ReverseI16IsByteSwap(ReverseU16(true, value));
      ReverseU16Involution(true, value);
    }
  }

  lemma {:induction false} I16RoundTrip(littleEndian: bool, value: bv16)
    ensures FromI16(littleEndian, ToI16(littleEndian, value)) == value
  {
    ReverseI16Involution(littleEndian, value);
  }

  // ---------------------------------------------------------------- I32

  predicate Negative32(value: bv32) { value & 0x8000_0000 != 0 }

  /** `rev` in I32.Reverse before the sign fix-up. */
  function RevI32(value: bv32): bv32
  {
    ((value & 0x0000_007F) << 24) |
    ((value & 0x0000_FF00) << 8) |
    ((value & 0x00FF_0000) >> 8) |
    (((value & 0x7F00_0000) >> 24) + (if Negative32(value) then 0x0080 else 0))
  }

  /** I32.Reverse. */
  function ReverseI32(littleEndian: bool, value: bv32): bv32
  {
    if littleEndian then
      var rev := RevI32(value);
      var sign := (value & 0x0000_0080) != 0;
      if sign then 0x8000_0000 + rev else rev
    else value
  }

  datatype I32 = I32(internal: bv32)

  function ToI32(littleEndian: bool, value: bv32): I32
  {
    I32(ReverseI32(littleEndian, value))
  }

  function FromI32(littleEndian: bool, self: I32): bv32
  {
    ReverseI32(littleEndian, self.internal)
  }

  lemma {:induction false} RevI32Bounded(value: bv32)
    ensures RevI32(value) < 0x8000_0000
  {
  }

  lemma {:induction false} ReverseI32Case00(value: bv32)
    requires value & 0x8000_0080 == 0
    ensures ReverseI32(true, value) == ReverseU32(true, value)
  {
  }

  lemma {:induction false} ReverseI32Case01(value: bv32)
    requires value & 0x8000_0080 == 0x0000_0080
    ensures ReverseI32(true, value) == ReverseU32(true, value)
  {
  }

  lemma {:induction false} ReverseI32Case10(value: bv32)
    requires value & 0x8000_0080 == 0x8000_0000
    ensures ReverseI32(true, value) == ReverseU32(true, value)
  {
  }

  lemma {:induction false} ReverseI32Case11(value: bv32)
    requires value & 0x8000_0080 == 0x8000_0080
    ensures ReverseI32(true, value) == ReverseU32(true, value)
  {
  }

  /** The piecewise signed reverse is the 4-byte swap of the bit pattern. */
  lemma {:induction false} ReverseI32IsByteSwap(value: bv32)
    ensures ReverseI32(true, value) == ReverseU32(true, value)
    ensures Bytes32(ReverseI32(true, value)) == Reversed(Bytes32(value))
  {
    var s := value & 0x8000_0080;
    if s == 0 {
      ReverseI32Case00(value);
    } else if s == 0x0000_0080 {
      ReverseI32Case01(value);
    } else if s == 0x8000_0000 {
      ReverseI32Case10(value);
    } else {
      ReverseI32Case11(value);
    }
    ReverseU32SwapsBytes(value);
  }

  /** The result's sign comes from input bit 7, through the `int.MinValue + rev` path. */
  lemma {:induction false} ReverseI32Sign(value: bv32)
    ensures Negative32(ReverseI32(true, value)) <==> value & 0x0000_0080 != 0
  {
    ReverseI32IsByteSwap(value);
  }

  lemma {:induction false} ReverseI32Involution(littleEndian: bool, value: bv32)
    ensures ReverseI32(littleEndian, ReverseI32(littleEndian, value)) == value
  {
    if littleEndian {
      ReverseI32IsByteSwap(value);
      ReverseI32IsByteSwap(ReverseU32(true, value));
      ReverseU32Involution(true, value);
    }
  }

  lemma {:induction false} I32RoundTrip(littleEndian: bool, value: bv32)
    ensures FromI32(littleEndian, ToI32(littleEndian, value)) == value
  {
    ReverseI32Involution(littleEndian, value);
  }

  // ---------------------------------------------------------------- I64

  predicate Negative64(value: bv64) { value & 0x8000_0000_0000_0000 != 0 }

  /** The plain 8-byte swap, the reference the piecewise I64.Reverse is proved against. */
  function Swap64(b: bv64): bv64
  {
    ((b & 0xFF) << 56) | (((b >> 8) & 0xFF) << 48) | (((b >> 16) & 0xFF) << 40) | (((b >> 24) & 0xFF) << 32) |
    (((b >> 32) & 0xFF) << 24) | (((b >> 40) & 0xFF) << 16) | (((b >> 48) & 0xFF) << 8) | (b >> 56)
  }

  /** `rev` in I64.Reverse before the sign fix-up. */
  function RevI64(value: bv64): bv64
  {
    ((value & 0x0000_0000_0000_007F) << 56) |
    ((value & 0x0000_0000_0000_FF00) << 40) |
    ((value & 0x0000_0000_00FF_0000) << 24) |
    ((value & 0x0000_0000_FF00_0000) << 8) |
    ((value & 0x0000_00FF_0000_0000) >> 8) |
    ((value & 0x0000_FF00_0000_0000) >> 24) |
    ((value & 0x00FF_0000_0000_0000) >> 40) |
    (((value & 0x7F00_0000_0000_0000) >> 56) + (if Negative64(value) then 0x80 else 0))
  }

  /** I64.Reverse. */
  function ReverseI64(littleEndian: bool, value: bv64): bv64
  {
    if littleEndian then
      var rev := RevI64(value);
      var sign := (value & 0x80) != 0;
      if sign then 0x8000_0000_0000_0000 + rev else rev
    else value
  }

  datatype I64 = I64(internal: bv64)

  function ToI64(littleEndian: bool, value: bv64): I64
  {
    I64(ReverseI64(littleEndian, value))
  }

  function FromI64(littleEndian: bool, self: I64): bv64
  {
    ReverseI64(littleEndian, self.internal)
  }

  lemma {:induction false} RevI64Bounded(value: bv64)
    ensures RevI64(value) < 0x8000_0000_0000_0000
  {
  }

  lemma {:induction false} Swap64SwapsBytes(value: bv64)
    ensures Bytes64(Swap64(value)) == Reversed(Bytes64(value))
  {
    Reversed8(Bytes64(value));
  }

  lemma {:induction false} Swap64Involution(value: bv64)
    ensures Swap64(Swap64(value)) == value
  {
  }

  lemma {:induction false} ReverseI64Case00(value: bv64)
    requires value & 0x8000_0000_0000_0080 == 0
    ensures ReverseI64(true, value) == Swap64(value)
  {
  }

  lemma {:induction false} ReverseI64Case01(value: bv64)
    requires value & 0x8000_0000_0000_0080 == 0x80
    ensures ReverseI64(true, value) == Swap64(value)
  {
  }

  lemma {:induction false} ReverseI64Case10(value: bv64)
    requires value & 0x8000_0000_0000_0080 == 0x8000_0000_0000_0000
    ensures ReverseI64(true, value) == Swap64(value)
  {
  }

  lemma {:induction false} ReverseI64Case11(value: bv64)
    requires value & 0x8000_0000_0000_0080 == 0x8000_0000_0000_0080
    ensures ReverseI64(true, value) == Swap64(value)
  {
  }

  /** The piecewise signed reverse is the 8-byte swap of the bit pattern. */
  lemma {:induction false} ReverseI64IsByteSwap(value: bv64)
    ensures ReverseI64(true, value) == Swap64(value)
    ensures Bytes64(ReverseI64(true, value)) == Reversed(Bytes64(value))
  {
    var s := value & 0x8000_0000_0000_0080;
    if s == 0 {
      ReverseI64Case00(value);
    } else if s == 0x80 {
      ReverseI64Case01(value);
    } else if s == 0x8000_0000_0000_0000 {
      ReverseI64Case10(value);
    } else {
      ReverseI64Case11(value);
    }
    Swap64SwapsBytes(value);
  }

  /**
   * The result's sign comes from input bit 7, and the input's sign bit lands
   * in bit 7 of the result.
   */
  lemma {:induction false} ReverseI64Sign(value: bv64)
    ensures Negative64(ReverseI64(true, value)) <==> value & 0x80 != 0
    ensures ReverseI64(true, value) & 0x80 != 0 <==> Negative64(value)
  {
    ReverseI64IsByteSwap(value);
  }

  lemma {:induction false} ReverseI64Involution(littleEndian: bool, value: bv64)
    ensures ReverseI64(littleEndian, ReverseI64(littleEndian, value)) == value
  {
    if littleEndian {
      ReverseI64IsByteSwap(value);
      ReverseI64IsByteSwap(Swap64(value));
      Swap64Involution(value);
    }
  }

  lemma {:induction false} I64RoundTrip(littleEndian: bool, value: bv64)
    ensures FromI64(littleEndian, ToI64(littleEndian, value)) == value
  {
    ReverseI64Involution(littleEndian, value);
  }
}
