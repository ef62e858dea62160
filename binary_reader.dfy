/** The typed reader: raw bytes, delimited bytes, integers in an explicit
    or implied byte order, and three string encodings, each read from the
    current position of a stream.

    Each read is specified by a function of the bytes the stream can still
    deliver (`s.Unread()` before the call): the result the read returns and
    how many bytes it consumes. */
module BinaryReader {
  import opened StdIo
  import opened Bytes
  import opened Endian
  import opened Utf8
  import opened IntCodec

  // ---------------------------------------------------------------- outcomes

  /** The outcome of reading exactly `n` bytes from `unread`. */
  function RawRead(unread: seq<byte>, n: nat): (r: Result<seq<byte>>)
    ensures r.Ok? <==> n <= |unread|
    ensures r.Ok? ==> |r.value| == n && unread == r.value + unread[n..]
    ensures r.Err? ==> r.error == UnexpectedEof
  {
    if n <= |unread| then Ok(unread[..n]) else Err(UnexpectedEof)
  }

  /** The outcome of reading one value of type `t` in byte order `order`. */
  function IntRead(t: IntType, unread: seq<byte>, order: Endianness): (r: Result<int>)
    ensures r.Ok? <==> t.Size() <= |unread|
    ensures r.Ok? ==> t.Contains(r.value) && Encode(t, r.value, order) == unread[..t.Size()]
    ensures r.Err? ==> r.error == UnexpectedEof
  {
    if t.Size() <= |unread| then
      EncodeDecode(t, unread[..t.Size()], order);
      Ok(Decode(t, unread[..t.Size()], order))
    else Err(UnexpectedEof)
  }

  /** The index of the first `d` in `s`, if any. */
  function FirstIndex(s: seq<byte>, d: byte): (r: Option<nat>)
    ensures r.Some? ==> r.value < |s| && s[r.value] == d && d !in s[..r.value]
    ensures r.None? <==> d !in s
  {
    if s == [] then None
    else if s[0] == d then Some(0)
    else
      match FirstIndex(s[1..], d)
      case None => None
      case Some(i) =>
        assert s[..i + 1] == [s[0]] + s[1..][..i];
        Some(i + 1)
  }

  /** A position holding `d` with no `d` before it is the first index. */
  lemma FirstIndexAt(s: seq<byte>, d: byte, k: nat)
    requires k < |s| && s[k] == d && d !in s[..k]
    ensures FirstIndex(s, d) == Some(k)
  {
    assert d in s by { assert s[k] == d; }
    var j := FirstIndex(s, d).value;
  }

  /** The outcome of `read_to_delim(d)`: the bytes before the first `d`. */
  function DelimRead(unread: seq<byte>, d: byte): (r: Result<seq<byte>>)
    ensures r.Ok? <==> d in unread
    ensures r.Ok? ==> d !in r.value && |r.value| < |unread| && unread[..|r.value| + 1] == r.value + [d]
    ensures r.Err? ==> r.error == UnexpectedEof
  {
    match FirstIndex(unread, d)
    case Some(i) =>
      assert unread[..i + 1] == unread[..i] + [d];
      Ok(unread[..i])
    case None => Err(UnexpectedEof)
  }

  /** How many bytes `read_to_delim(d)` consumes: up to and including the
      first `d`, or everything when there is none. */
  function DelimConsumed(unread: seq<byte>, d: byte): (n: nat)
    ensures n <= |unread|
    ensures DelimRead(unread, d).Ok? ==> n == |DelimRead(unread, d).value| + 1
  {
    match FirstIndex(unread, d)
    case Some(i) => i + 1
    case None => |unread|
  }

  /** `String::from_utf8` with its error mapped to `InvalidData`. */
  function TextOf(bytes: seq<byte>): (r: Result<seq<byte>>)
    ensures r.Ok? <==> ValidUtf8(bytes)
    ensures r.Ok? ==> r.value == bytes
    ensures r.Err? ==> r.error == InvalidData
  {
    if ValidUtf8(bytes) then Ok(bytes) else Err(InvalidData)
  }

  /** The outcome of reading a string of exactly `size` bytes. */
  function FixedStringRead(unread: seq<byte>, size: nat): (r: Result<seq<byte>>)
    ensures size > |unread| ==> r == Err(UnexpectedEof)
    ensures size <= |unread| ==> (r.Ok? <==> ValidUtf8(unread[..size]))
    ensures r.Ok? ==> r.value == unread[..size]
    ensures r.Err? && size <= |unread| ==> r.error == InvalidData
  {
    match RawRead(unread, size)
    case Ok(bytes) => TextOf(bytes)
    case Err(e) => Err(e)
  }

  /** The outcome of reading a string up to a zero byte. */
  function NtStringRead(unread: seq<byte>): (r: Result<seq<byte>>)
    ensures 0 !in unread ==> r == Err(UnexpectedEof)
    ensures r.Ok? ==> 0 !in r.value && ValidUtf8(r.value) && |r.value| < |unread| && unread[..|r.value| + 1] == r.value + [0]
    ensures 0 in unread ==> (r.Ok? <==> ValidUtf8(DelimRead(unread, 0).value))
    ensures r.Err? && 0 in unread ==> r.error == InvalidData
  {
    match DelimRead(unread, 0)
    case Ok(bytes) =>
      assert unread[..|bytes| + 1] == bytes + [0];
      TextOf(bytes)
    case Err(e) => Err(e)
  }

  /** The length that the size-prefixed read takes from `got`, the bytes it
      obtained of a `width`-byte prefix: they are copied into a zeroed
      8-byte buffer, to its low end for `Little` and to the start of its high
      `width` bytes for `Big`, and the buffer is read as a `usize` in that
      order. */
  function PrefixLength(got: seq<byte>, width: nat, order: Endianness): (r: nat)
    requires |got| <= width <= 8
    ensures order == Little ==> r == LeValue(got)
    ensures order == Big ==> r == BeValue(got) * Pow256(width - |got|)
  {
    match order
    case Little =>
      LeValueZeroExtended(got, 8 - |got|);
      FromBytes(got + Zeros(8 - |got|), Little)
    case Big =>
      BeValueZeroPadded(got, width - |got|);
      BeValueZeroExtended(got + Zeros(width - |got|), 8 - width);
      assert Zeros(8 - width) + got + Zeros(width - |got|) == Zeros(8 - width) + (got + Zeros(width - |got|));
      FromBytes(Zeros(8 - width) + got + Zeros(width - |got|), Big)
  }

  /** A complete prefix is zero-extended: its length is the unsigned value of
      its bytes in the given order. */
  lemma PrefixLengthOfFullPrefix(prefix: seq<byte>, order: Endianness)
    requires |prefix| <= 8
    ensures PrefixLength(prefix, |prefix|, order) == FromBytes(prefix, order)
  {
    match order
    case Little => LeValueZeroExtended(prefix, 8 - |prefix|);
    case Big =>
      assert Zeros(8 - |prefix|) + prefix + Zeros(0) == Zeros(8 - |prefix|) + prefix;
      BeValueZeroExtended(prefix, 8 - |prefix|);
  }

  /** When the prefix read obtains nothing, the zeroed buffer gives
      length 0. */
  lemma EmptyPrefixIsZero(width: nat, order: Endianness)
    requires width <= 8
    ensures PrefixLength([], width, order) == 0
  {
    match order
    case Little =>
      assert [] + Zeros(8) == Zeros(8);
      AllZerosValue(Zeros(8));
    case Big =>
      var z := Zeros(8 - width) + [] + Zeros(width);
      BeValueIsReversedLe(z);
      AllZerosValue(Reverse(z));
  }

  // ---------------------------------------------------------------- frames

  /** The read left the contents alone and moved the cursor over the bytes it
      consumed, or left it alone on a failing stream. */
  twostate predicate Consumes(s: Stream, n: nat)
    reads s
  {
    && s.Valid()
    && s.data == old(s.data)
    && s.pos == old(s.pos) + (if s.failing then 0 else n)
  }

  // ---------------------------------------------------------------- raw bytes

  /** `read_raw`. A short read still consumes what it obtained. */
  method ReadRaw(s: Stream, size: nat) returns (r: Result<seq<byte>>)
    requires s.Valid()
    modifies s
    ensures Consumes(s, Min(size, |old(s.Unread())|))
    ensures r == if s.failing then Err(Io) else RawRead(old(s.Unread()), size)
  {
    ghost var unread := s.Unread();
    var buffer := new byte[size](_ => 0);
    var count :- s.Read(buffer, 0, size);
    if count != size {
      return Err(UnexpectedEof);
    }
    assert buffer[..] == unread[..size];
    return Ok(buffer[..]);
  }

  /** `read_to_delim`: reads byte by byte until `delim`, which is consumed
      but not returned. */
  method ReadToDelim(s: Stream, delim: byte) returns (r: Result<seq<byte>>)
    requires s.Valid()
    modifies s
    ensures Consumes(s, DelimConsumed(old(s.Unread()), delim))
    ensures r == if s.failing then Err(Io) else DelimRead(old(s.Unread()), delim)
  {
    ghost var unread := s.Unread();
    var buffer: seq<byte> := [];
    while true
      invariant s.Valid() && s.data == old(s.data)
      invariant |buffer| <= |unread| && buffer == unread[..|buffer|]
      invariant s.pos == old(s.pos) + |buffer| && s.Unread() == unread[|buffer|..]
      invariant delim !in buffer
      invariant s.failing ==> buffer == []
      decreases |unread| - |buffer|
    {
      var byte :- ReadU8(s);
      if byte == delim {
        FirstIndexAt(unread, delim, |buffer|);
        return Ok(buffer);
      }
      buffer := buffer + [byte];
    }
  }

  // ---------------------------------------------------------------- bytes

  /** The outcome of reading one byte. */
  function ByteRead(unread: seq<byte>): (r: Result<byte>)
    ensures r.Ok? <==> |unread| > 0
    ensures r.Ok? ==> r.value == unread[0]
    ensures r.Err? ==> r.error == UnexpectedEof
  {
    if |unread| > 0 then Ok(unread[0]) else Err(UnexpectedEof)
  }

  /** `read_u8`. */
  method ReadU8(s: Stream) returns (r: Result<byte>)
    requires s.Valid()
    modifies s
    ensures Consumes(s, Min(1, |old(s.Unread())|))
    ensures r == if s.failing then Err(Io) else ByteRead(old(s.Unread()))
  {
    var buffer := new byte[1](_ => 0);
    var count :- s.Read(buffer, 0, 1);
    if count != 1 {
      return Err(UnexpectedEof);
    }
    return Ok(buffer[0]);
  }

  /** `read_i8`: the next byte reinterpreted as two's complement. */
  method ReadI8(s: Stream) returns (r: Result<int>)
    requires s.Valid()
    modifies s
    ensures Consumes(s, Min(1, |old(s.Unread())|))
    ensures r == if s.failing then Err(Io) else match ByteRead(old(s.Unread()))
      case Ok(b) => Ok(ToSigned(b, 1))
      case Err(e) => Err(e)
    ensures r.Ok? ==> -128 <= r.value < 128
  {
    Pow256Values();
    var buffer := new byte[1](_ => 0);
    var count :- s.Read(buffer, 0, 1);
    if count != 1 {
      return Err(UnexpectedEof);
    }
    return Ok(ToSigned(buffer[0], 1));
  }

  /** `read_into_u8`. */
  method ReadIntoU8(s: Stream, target: byte) returns (r: Result<()>, updated: byte)
    requires s.Valid()
    modifies s
    ensures Consumes(s, Min(1, |old(s.Unread())|))
    ensures (r, updated) == Into(if s.failing then Err(Io) else ByteRead(old(s.Unread())), target)
  {
    updated := target;
    var v :- ReadU8(s);
    updated := v;
    r := Ok(());
  }

  /** `read_into_i8`. */
  method ReadIntoI8(s: Stream, target: int) returns (r: Result<()>, updated: int)
    requires s.Valid() && -128 <= target < 128
    modifies s
    ensures Consumes(s, Min(1, |old(s.Unread())|))
    ensures (r, updated) == Into(if s.failing then Err(Io) else match ByteRead(old(s.Unread()))
      case Ok(b) => Ok(ToSigned(b, 1))
      case Err(e) => Err(e), target)
  {
    updated := target;
    var v :- ReadI8(s);
    updated := v;
    r := Ok(());
  }

  // ---------------------------------------------------------------- integers

  /** `read_u16`, `read_i16`, `read_u32`, `read_i32`, `read_u64` and
      `read_i64`: read `size_of` bytes, swap them for `order` and reinterpret
      them in native layout. */
  method ReadInt(s: Stream, t: IntType, order: Endianness) returns (r: Result<int>)
    requires s.Valid()
    modifies s
    ensures Consumes(s, Min(t.Size(), |old(s.Unread())|))
    ensures r == if s.failing then Err(Io) else IntRead(t, old(s.Unread()), order)
  {
    ghost var unread := s.Unread();
    var buffer := new byte[t.Size()](_ => 0);
    var count :- s.Read(buffer, 0, t.Size());
    if count != t.Size() {
      return Err(UnexpectedEof);
    }
    ghost var bytes := buffer[..];
    assert bytes == unread[..t.Size()];
    SwapInPlace(buffer, order);
    NativeReadIsOrderedRead(t, bytes, order, SysEndianness);
    return Ok(FromBits(t, FromNeBytes(buffer[..], SysEndianness)));
  }

  /** `read_le_*`. */
  method ReadLe(s: Stream, t: IntType) returns (r: Result<int>)
    requires s.Valid()
    modifies s
    ensures Consumes(s, Min(t.Size(), |old(s.Unread())|))
    ensures r == if s.failing then Err(Io) else IntRead(t, old(s.Unread()), Little)
  {
    r := ReadInt(s, t, Little);
  }

  /** `read_be_*`. */
  method ReadBe(s: Stream, t: IntType) returns (r: Result<int>)
    requires s.Valid()
    modifies s
    ensures Consumes(s, Min(t.Size(), |old(s.Unread())|))
    ensures r == if s.failing then Err(Io) else IntRead(t, old(s.Unread()), Big)
  {
    r := ReadInt(s, t, Big);
  }

  /** `read_ne_*`. */
  method ReadNe(s: Stream, t: IntType) returns (r: Result<int>)
    requires s.Valid()
    modifies s
    ensures Consumes(s, Min(t.Size(), |old(s.Unread())|))
    ensures r == if s.failing then Err(Io) else IntRead(t, old(s.Unread()), SysEndianness)
  {
    r := ReadInt(s, t, SysEndianness);
  }

  /** The `read_into_*` calling convention: on success the value read is
      stored in the target, on failure the target keeps its value. */
  function Into<T>(read: Result<T>, target: T): (r: (Result<()>, T))
    ensures r.0.Ok? <==> read.Ok?
    ensures read.Ok? ==> r.1 == read.value
    ensures read.Err? ==> r.0 == Err(read.error) && r.1 == target
  {
    match read
    case Ok(v) => (Ok(()), v)
    case Err(e) => (Err(e), target)
  }

  /** `read_into_u16` … `read_into_i64`. */
  method ReadInto(s: Stream, t: IntType, order: Endianness, target: int) returns (r: Result<()>, updated: int)
    requires s.Valid() && t.Contains(target)
    modifies s
    ensures Consumes(s, Min(t.Size(), |old(s.Unread())|))
    ensures (r, updated) == Into(if s.failing then Err(Io) else IntRead(t, old(s.Unread()), order), target)
  {
    updated := target;
    var v :- ReadInt(s, t, order);
    updated := v;
    r := Ok(());
  }

  /** `read_into_le_*`. */
  method ReadIntoLe(s: Stream, t: IntType, target: int) returns (r: Result<()>, updated: int)
    requires s.Valid() && t.Contains(target)
    modifies s
    ensures Consumes(s, Min(t.Size(), |old(s.Unread())|))
    ensures (r, updated) == Into(if s.failing then Err(Io) else IntRead(t, old(s.Unread()), Little), target)
  {
    r, updated := ReadInto(s, t, Little, target);
  }

  /** `read_into_be_*`. */
  method ReadIntoBe(s: Stream, t: IntType, target: int) returns (r: Result<()>, updated: int)
    requires s.Valid() && t.Contains(target)
    modifies s
    ensures Consumes(s, Min(t.Size(), |old(s.Unread())|))
    ensures (r, updated) == Into(if s.failing then Err(Io) else IntRead(t, old(s.Unread()), Big), target)
  {
    r, updated := ReadInto(s, t, Big, target);
  }

  /** `read_into_ne_*`. */
  method ReadIntoNe(s: Stream, t: IntType, target: int) returns (r: Result<()>, updated: int)
    requires s.Valid() && t.Contains(target)
    modifies s
    ensures Consumes(s, Min(t.Size(), |old(s.Unread())|))
    ensures (r, updated) == Into(if s.failing then Err(Io) else IntRead(t, old(s.Unread()), SysEndianness), target)
  {
    r, updated := ReadInto(s, t, SysEndianness, target);
  }

  // ---------------------------------------------------------------- floats

  /** `read_f32` and `read_f64`, as bit patterns: the same bytes, swap and
      native reinterpretation as the unsigned read of the same width. */
  method ReadFloat(s: Stream, f: FloatType, order: Endianness) returns (r: Result<int>)
    requires s.Valid()
    modifies s
    ensures Consumes(s, Min(f.Bits().Size(), |old(s.Unread())|))
    ensures r == if s.failing then Err(Io) else IntRead(f.Bits(), old(s.Unread()), order)
  {
    r := ReadInt(s, f.Bits(), order);
  }

  /** `read_le_f32` and `read_le_f64`. */
  method ReadFloatLe(s: Stream, f: FloatType) returns (r: Result<int>)
    requires s.Valid()
    modifies s
    ensures Consumes(s, Min(f.Bits().Size(), |old(s.Unread())|))
    ensures r == if s.failing then Err(Io) else IntRead(f.Bits(), old(s.Unread()), Little)
  {
    r := ReadFloat(s, f, Little);
  }

  /** `read_be_f32` and `read_be_f64`. */
  method ReadFloatBe(s: Stream, f: FloatType) returns (r: Result<int>)
    requires s.Valid()
    modifies s
    ensures Consumes(s, Min(f.Bits().Size(), |old(s.Unread())|))
    ensures r == if s.failing then Err(Io) else IntRead(f.Bits(), old(s.Unread()), Big)
  {
    r := ReadFloat(s, f, Big);
  }

  /** The order the native-order float reads use as written: `read_ne_f32`
      uses the native order, but `read_ne_f64` and both `read_into_ne_*`
      float reads use `Big`, whatever the host. */
  function NeFloatOrder(f: FloatType, into: bool): (e: Endianness)
    ensures !into && f == F32 ==> e == SysEndianness
    ensures into || f == F64 ==> e == Big
  {
    if !into && f == F32 then SysEndianness else Big
  }

  /** `read_ne_f32` and `read_ne_f64` as written. */
  method ReadNeFloat(s: Stream, f: FloatType) returns (r: Result<int>)
    requires s.Valid()
    modifies s
    ensures Consumes(s, Min(f.Bits().Size(), |old(s.Unread())|))
    ensures r == if s.failing then Err(Io) else IntRead(f.Bits(), old(s.Unread()), NeFloatOrder(f, false))
  {
    r := ReadFloat(s, f, NeFloatOrder(f, false));
  }

  /** `read_ne_f32` and `read_ne_f64` with the native order both use. */
  method ReadNeFloatNative(s: Stream, f: FloatType) returns (r: Result<int>)
    requires s.Valid()
    modifies s
    ensures Consumes(s, Min(f.Bits().Size(), |old(s.Unread())|))
    ensures r == if s.failing then Err(Io) else IntRead(f.Bits(), old(s.Unread()), SysEndianness)
  {
    r := ReadFloat(s, f, SysEndianness);
  }

  /** `read_into_f32` and `read_into_f64`. */
  method ReadIntoFloat(s: Stream, f: FloatType, order: Endianness, target: int) returns (r: Result<()>, updated: int)
    requires s.Valid() && f.Bits().Contains(target)
    modifies s
    ensures Consumes(s, Min(f.Bits().Size(), |old(s.Unread())|))
    ensures (r, updated) == Into(if s.failing then Err(Io) else IntRead(f.Bits(), old(s.Unread()), order), target)
  {
    r, updated := ReadInto(s, f.Bits(), order, target);
  }

  /** `read_into_le_f32` and `read_into_le_f64`. */
  method ReadIntoFloatLe(s: Stream, f: FloatType, target: int) returns (r: Result<()>, updated: int)
    requires s.Valid() && f.Bits().Contains(target)
    modifies s
    ensures Consumes(s, Min(f.Bits().Size(), |old(s.Unread())|))
    ensures (r, updated) == Into(if s.failing then Err(Io) else IntRead(f.Bits(), old(s.Unread()), Little), target)
  {
    r, updated := ReadIntoFloat(s, f, Little, target);
  }

  /** `read_into_be_f32` and `read_into_be_f64`. */
  method ReadIntoFloatBe(s: Stream, f: FloatType, target: int) returns (r: Result<()>, updated: int)
    requires s.Valid() && f.Bits().Contains(target)
    modifies s
    ensures Consumes(s, Min(f.Bits().Size(), |old(s.Unread())|))
    ensures (r, updated) == Into(if s.failing then Err(Io) else IntRead(f.Bits(), old(s.Unread()), Big), target)
  {
    r, updated := ReadIntoFloat(s, f, Big, target);
  }

  /** `read_into_ne_f32` and `read_into_ne_f64` as written: both read `Big`. */
  method ReadIntoNeFloat(s: Stream, f: FloatType, target: int) returns (r: Result<()>, updated: int)
    requires s.Valid() && f.Bits().Contains(target)
    modifies s
    ensures Consumes(s, Min(f.Bits().Size(), |old(s.Unread())|))
    ensures (r, updated) == Into(if s.failing then Err(Io) else IntRead(f.Bits(), old(s.Unread()), NeFloatOrder(f, true)), target)
  {
    r, updated := ReadIntoFloat(s, f, NeFloatOrder(f, true), target);
  }

  /** `read_into_ne_f32` and `read_into_ne_f64` with the native order. */
  method ReadIntoNeFloatNative(s: Stream, f: FloatType, target: int) returns (r: Result<()>, updated: int)
    requires s.Valid() && f.Bits().Contains(target)
    modifies s
    ensures Consumes(s, Min(f.Bits().Size(), |old(s.Unread())|))
    ensures (r, updated) == Into(if s.failing then Err(Io) else IntRead(f.Bits(), old(s.Unread()), SysEndianness), target)
  {
    r, updated := ReadIntoFloat(s, f, SysEndianness, target);
  }

  // ---------------------------------------------------------------- strings

  /** `read_fixed_size_string`. */
  method ReadFixedSizeString(s: Stream, size: nat) returns (r: Result<seq<byte>>)
    requires s.Valid()
    modifies s
    ensures Consumes(s, Min(size, |old(s.Unread())|))
    ensures r == if s.failing then Err(Io) else FixedStringRead(old(s.Unread()), size)
  {
    ghost var unread := s.Unread();
    var buffer := new byte[size](_ => 0);
    var count :- s.Read(buffer, 0, size);
    if count != size {
      return Err(UnexpectedEof);
    }
    assert buffer[..] == unread[..size];
    if !ValidUtf8(buffer[..]) {
      return Err(InvalidData);
    }
    return Ok(buffer[..]);
  }

  /** `read_null_terminated_string`. */
  method ReadNullTerminatedString(s: Stream) returns (r: Result<seq<byte>>)
    requires s.Valid()
    modifies s
    ensures Consumes(s, DelimConsumed(old(s.Unread()), 0))
    ensures r == if s.failing then Err(Io) else NtStringRead(old(s.Unread()))
  {
    var buffer :- ReadToDelim(s, 0);
    if !ValidUtf8(buffer) {
      return Err(InvalidData);
    }
    return Ok(buffer);
  }

  /** `read_into_fixed_size_string`. */
  method ReadIntoFixedSizeString(s: Stream, size: nat, target: seq<byte>) returns (r: Result<()>, updated: seq<byte>)
    requires s.Valid()
    modifies s
    ensures Consumes(s, Min(size, |old(s.Unread())|))
    ensures (r, updated) == Into(if s.failing then Err(Io) else FixedStringRead(old(s.Unread()), size), target)
  {
    updated := target;
    var v :- ReadFixedSizeString(s, size);
    updated := v;
    r := Ok(());
  }

  /** `read_into_null_terminated_string`. */
  method ReadIntoNullTerminatedString(s: Stream, target: seq<byte>) returns (r: Result<()>, updated: seq<byte>)
    requires s.Valid()
    modifies s
    ensures Consumes(s, DelimConsumed(old(s.Unread()), 0))
    ensures (r, updated) == Into(if s.failing then Err(Io) else NtStringRead(old(s.Unread())), target)
  {
    updated := target;
    var v :- ReadNullTerminatedString(s);
    updated := v;
    r := Ok(());
  }

  /** The prefix step of `read_size_prefixed_string`: reads up to `width`
      bytes into a zeroed 8-byte buffer, at its low end for `Little` and its
      high end for `Big`, and reads the buffer as a `usize` in `order`. How
      many bytes the read obtained is not checked. */
  method ReadPrefixLength(s: Stream, width: nat, order: Endianness) returns (r: Result<nat>)
    requires s.Valid() && 1 <= width <= 8
    modifies s
    ensures Consumes(s, Min(width, |old(s.Unread())|))
    ensures
      var got := old(s.Unread())[..Min(width, |old(s.Unread())|)];
      r == if s.failing then Err(Io) else Ok(PrefixLength(got, width, order))
  {
    ghost var unread := s.Unread();
    var buffer := new byte[8](_ => 0);
    ghost var zeroed := buffer[..];
    assert zeroed == Zeros(8);
    match order {
      case Little =>
        var count :- s.Read(buffer, 0, width);
        PrefixLengthOfBuffer(buffer[..], zeroed, unread[..count], width, Little);
        r := Ok(FromBytes(buffer[..], Little));
      case Big =>
        var count :- s.Read(buffer, 8 - width, 8);
        PrefixLengthOfBuffer(buffer[..], zeroed, unread[..count], width, Big);
        r := Ok(FromBytes(buffer[..], Big));
    }
  }

  /** The bytes a prefix read obtained, placed in a zeroed 8-byte buffer at
      its low end for `Little` and at the start of its high `width` bytes for
      `Big`, make the buffer's value the prefix length. */
  lemma PrefixLengthOfBuffer(buffer: seq<byte>, zeroed: seq<byte>, got: seq<byte>, width: nat, order: Endianness)
    requires |got| <= width <= 8 && zeroed == Zeros(8)
    requires var lo := if order == Little then 0 else 8 - width;
      buffer == zeroed[..lo] + got + zeroed[lo + |got|..]
    ensures FromBytes(buffer, order) == PrefixLength(got, width, order)
  {
    var lo := if order == Little then 0 else 8 - width;
    assert zeroed[..lo] == Zeros(lo);
    assert zeroed[lo + |got|..] == Zeros(8 - lo - |got|);
    if order == Little {
      assert buffer == got + Zeros(8 - |got|);
    } else {
      assert buffer == Zeros(8 - width) + got + Zeros(width - |got|);
    }
  }

  /** `read_size_prefixed_string::<P>` for a prefix type `P` of `width`
      bytes: reads the prefix, without checking how many of its bytes were
      obtained, and then a fixed-size string of the length it gives. */
  method ReadSizePrefixedString(s: Stream, width: nat, order: Endianness) returns (r: Result<seq<byte>>)
    requires s.Valid() && width in {1, 2, 4, 8}
    modifies s
    ensures
      var unread := old(s.Unread());
      var got := Min(width, |unread|);
      var size := PrefixLength(unread[..got], width, order);
      && Consumes(s, got + Min(size, |unread| - got))
      && r == if s.failing then Err(Io) else FixedStringRead(unread[got..], size)
    ensures
      var unread := old(s.Unread());
      !s.failing && width <= |unread| ==>
        r == FixedStringRead(unread[width..], FromBytes(unread[..width], order))
  {
    ghost var unread := s.Unread();
    var size :- ReadPrefixLength(s, width, order);
    assert s.Unread() == unread[Min(width, |unread|)..];
    if width <= |unread| {
      PrefixLengthOfFullPrefix(unread[..width], order);
    }
    r := ReadFixedSizeString(s, size);
  }

  /** `read_into_size_prefixed_string::<P>`. */
  method ReadIntoSizePrefixedString(s: Stream, width: nat, order: Endianness, target: seq<byte>)
    returns (r: Result<()>, updated: seq<byte>)
    requires s.Valid() && width in {1, 2, 4, 8}
    modifies s
    ensures
      var unread := old(s.Unread());
      var got := Min(width, |unread|);
      var size := PrefixLength(unread[..got], width, order);
      && Consumes(s, got + Min(size, |unread| - got))
      && (r, updated) == Into(if s.failing then Err(Io) else FixedStringRead(unread[got..], size), target)
  {
    updated := target;
    var v :- ReadSizePrefixedString(s, width, order);
    updated := v;
    r := Ok(());
  }

  // ---------------------------------------------------------------- checked prefix

  /** The outcome of a size-prefixed read that insists on the whole prefix:
      a stream that ends inside the prefix gives `UnexpectedEof`. */
  function SizePrefixedRead(unread: seq<byte>, width: nat, order: Endianness): (r: Result<seq<byte>>)
    requires width <= 8
    ensures |unread| < width ==> r == Err(UnexpectedEof)
    ensures r.Ok? ==>
      width <= |unread|
      && var size := FromBytes(unread[..width], order);
      width + size <= |unread| && r.value == unread[width..width + size] && ValidUtf8(r.value)
    ensures width <= |unread| ==> r == FixedStringRead(unread[width..], FromBytes(unread[..width], order))
  {
    if |unread| < width then Err(UnexpectedEof)
    else FixedStringRead(unread[width..], FromBytes(unread[..width], order))
  }

  /** `read_size_prefixed_string::<P>` with the prefix read's byte count
      checked, as every other read of the reader does. */
  method ReadSizePrefixedStringChecked(s: Stream, width: nat, order: Endianness) returns (r: Result<seq<byte>>)
    requires s.Valid() && width in {1, 2, 4, 8}
    modifies s
    ensures
      var unread := old(s.Unread());
      var got := Min(width, |unread|);
      var size := if got < width then 0 else FromBytes(unread[..width], order);
      && Consumes(s, got + Min(size, |unread| - got))
      && r == if s.failing then Err(Io) else SizePrefixedRead(unread, width, order)
  {
    ghost var unread := s.Unread();
    var prefix :- ReadRaw(s, width);
    assert prefix == unread[..width];
    assert s.Unread() == unread[width..];
    var size := FromBytes(prefix, order);
    r := ReadFixedSizeString(s, size);
  }
}
