/** The multi-byte integer primitives and their byte encodings in an explicit
    byte order, shared by the reader and the writer. */
module IntCodec {
  import opened StdIo
  import opened Bytes
  import opened Endian

  /** `u16`, `i16`, `u32`, `i32`, `u64` and `i64`: the types whose reads and
      writes go through `swap_inplace`. */
  datatype IntType = U16 | I16 | U32 | I32 | U64 | I64 {
    /** `size_of::<T>()`. */
    function Size(): (n: nat)
      ensures n > 1
    {
      match this
      case U16 | I16 => 2
      case U32 | I32 => 4
      case U64 | I64 => 8
    }

    predicate Signed() { I16? || I32? || I64? }

    /** The unsigned type of the same width. */
    function Unsigned(): (t: IntType)
      ensures !t.Signed() && t.Size() == Size()
    {
      match this
      case U16 | I16 => U16
      case U32 | I32 => U32
      case U64 | I64 => U64
    }

    /** `v` is a value of this type. */
    predicate Contains(v: int)
    {
      if Signed() then -Half(Size()) <= v < Half(Size()) else 0 <= v < Pow256(Size())
    }
  }

  /** `f32` and `f64`, carried as their bit patterns: a float read or write
      moves the same bytes as the unsigned integer of its width. */
  datatype FloatType = F32 | F64 {
    /** The unsigned type holding the bit pattern. */
    function Bits(): (t: IntType)
      ensures !t.Signed() && t.Size() == if F32? then 4 else 8
    {
      if F32? then U32 else U64
    }
  }

  /** The bit pattern of `v` as an unsigned number (`v as uN`). */
  function Bits(t: IntType, v: int): (u: nat)
    requires t.Contains(v)
    ensures u < Pow256(t.Size())
    ensures !t.Signed() ==> u == v
  {
    if t.Signed() then FromSigned(v, t.Size()) else v
  }

  /** The value of type `t` with bit pattern `u` (`u as T`). */
  function FromBits(t: IntType, u: nat): (v: int)
    requires u < Pow256(t.Size())
    ensures t.Contains(v)
    ensures Bits(t, v) == u
  {
    if t.Signed() then ToSigned(u, t.Size()) else u
  }

  /** The value of type `t` that `bytes` hold in byte order `order`. */
  function Decode(t: IntType, bytes: seq<byte>, order: Endianness): (v: int)
    requires |bytes| == t.Size()
    ensures t.Contains(v)
  {
    FromBits(t, FromBytes(bytes, order))
  }

  /** The `size_of::<T>()` bytes of `v` in byte order `order`. */
  function Encode(t: IntType, v: int, order: Endianness): (r: seq<byte>)
    requires t.Contains(v)
    ensures |r| == t.Size()
  {
    ToBytes(Bits(t, v), t.Size(), order)
  }

  /** Reading back what was written with the same order gives the value. */
  lemma DecodeEncode(t: IntType, v: int, order: Endianness)
    requires t.Contains(v)
    ensures Decode(t, Encode(t, v, order), order) == v
  {
    FromBytesOfToBytes(Bits(t, v), t.Size(), order);
    if t.Signed() {
      SignedRoundTrip(v, t.Size());
    }
  }

  /** Writing back what was read with the same order gives the bytes: every
      byte pattern is read as a distinct value. */
  lemma EncodeDecode(t: IntType, bytes: seq<byte>, order: Endianness)
    requires |bytes| == t.Size()
    ensures Encode(t, Decode(t, bytes, order), order) == bytes
  {
    ToBytesOfFromBytes(bytes, order);
  }

  /** The little-endian and big-endian encodings of a value are reverses of
      each other. */
  lemma EncodeLittleIsReversedBig(t: IntType, v: int)
    requires t.Contains(v)
    ensures Encode(t, v, Little) == Reverse(Encode(t, v, Big))
  {
    BeBytesIsReversedLe(Bits(t, v), t.Size());
    ReverseReverse(LeBytes(Bits(t, v), t.Size()));
  }

  /** Reading bytes as a signed type is reading them as the unsigned type of
      the same width and reinterpreting the result as two's complement. */
  lemma DecodeSignedIsReinterpreted(t: IntType, bytes: seq<byte>, order: Endianness)
    requires t.Signed() && |bytes| == t.Size()
    ensures Decode(t, bytes, order) == ToSigned(Decode(t.Unsigned(), bytes, order), t.Size())
  {
  }

  /** The value read from bytes swapped for `order` and reinterpreted in
      native layout is the value in `order`, on a host of either order. */
  lemma NativeReadIsOrderedRead(t: IntType, bytes: seq<byte>, order: Endianness, native: Endianness)
    requires |bytes| == t.Size()
    ensures |Swapped(bytes, order, native)| == t.Size()
    ensures FromBits(t, FromNeBytes(Swapped(bytes, order, native), native)) == Decode(t, bytes, order)
  {
    FromNeBytesOfSwapped(bytes, order, native);
  }

  /** The native-layout bytes of `v` swapped for `order` are its bytes in
      `order`, on a host of either order. */
  lemma NativeWriteIsOrderedWrite(t: IntType, v: int, order: Endianness, native: Endianness)
    requires t.Contains(v)
    ensures Swapped(ToNeBytes(Bits(t, v), t.Size(), native), order, native) == Encode(t, v, order)
  {
    SwappedToNeBytes(Bits(t, v), t.Size(), order, native);
  }
}
