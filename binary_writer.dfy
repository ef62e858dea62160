/** The typed writer: bytes, integers in an explicit or implied byte order,
    and two string encodings, each written at the current position of a
    stream.

    Each write is specified by the bytes it means to emit: the stream ends
    up as if those bytes had been handed to one `Write::write`, which places
    as many as fit, and the write succeeds exactly when all of them fit. */
module BinaryWriter {
  import opened StdIo
  import opened Bytes
  import opened Endian
  import opened Utf8
  import opened IntCodec

  /** The outcome of handing `bytes` to a stream with `room` bytes left:
      a short write is reported as `UnexpectedEof`. */
  function WriteResult(bytes: seq<byte>, room: int): (r: Result<()>)
    ensures r.Ok? <==> |bytes| <= room
    ensures r.Err? ==> r.error == UnexpectedEof
  {
    if |bytes| <= room then Ok(()) else Err(UnexpectedEof)
  }

  /** The stream holds `bytes` written at the old cursor, cut short at the
      stream's limit, and the cursor is past what was placed; a failing
      stream is left alone. */
  twostate predicate Writes(s: Stream, bytes: seq<byte>)
    reads s
  {
    && s.Valid()
    && var k := Min(|bytes|, old(s.Room()));
    && 0 <= k
    && (if s.failing then s.data == old(s.data) && s.pos == old(s.pos)
        else s.data == Overwrite(old(s.data), old(s.pos), bytes[..k]) && s.pos == old(s.pos) + k)
  }

  /** Hands `bytes` to the stream and reports a short write; the shared
      step of every write below. */
  method WriteAll(s: Stream, bytes: seq<byte>) returns (r: Result<()>)
    requires s.Valid()
    modifies s
    ensures Writes(s, bytes)
    ensures r == if s.failing then Err(Io) else WriteResult(bytes, old(s.Room()))
  {
    var count :- s.Write(bytes);
    if count != |bytes| {
      return Err(UnexpectedEof);
    }
    return Ok(());
  }

  /** `write_u8`. */
  method WriteU8(s: Stream, value: byte) returns (r: Result<()>)
    requires s.Valid()
    modifies s
    ensures Writes(s, [value])
    ensures r == if s.failing then Err(Io) else WriteResult([value], old(s.Room()))
  {
    r := WriteAll(s, [value]);
  }

  /** `write_i8`: the byte is the two's-complement pattern of `value`. */
  method WriteI8(s: Stream, value: int) returns (r: Result<()>)
    requires s.Valid() && -128 <= value < 128
    modifies s
    ensures Writes(s, [FromSigned(value, 1)])
    ensures r == if s.failing then Err(Io) else WriteResult([FromSigned(value, 1)], old(s.Room()))
  {
    Pow256Values();
    r := WriteAll(s, [FromSigned(value, 1)]);
  }

  /** `write_u16`, `write_i16`, `write_u32`, `write_i32`, `write_u64` and
      `write_i64`: lay the value out in native layout, swap it for `order`
      and write the `size_of` bytes, which are the encoding of `value` in
      `order`. */
  method WriteInt(s: Stream, t: IntType, value: int, order: Endianness) returns (r: Result<()>)
    requires s.Valid() && t.Contains(value)
    modifies s
    ensures Writes(s, Encode(t, value, order))
    ensures r == if s.failing then Err(Io) else WriteResult(Encode(t, value, order), old(s.Room()))
  {
    var native := ToNeBytes(Bits(t, value), t.Size(), SysEndianness);
    var buffer := new byte[t.Size()](i requires 0 <= i < t.Size() => native[i]);
    assert buffer[..] == native;
    SwapInPlace(buffer, order);
    NativeWriteIsOrderedWrite(t, value, order, SysEndianness);
    r := WriteAll(s, buffer[..]);
  }

  /** `write_le_*`. */
  method WriteLe(s: Stream, t: IntType, value: int) returns (r: Result<()>)
    requires s.Valid() && t.Contains(value)
    modifies s
    ensures Writes(s, Encode(t, value, Little))
    ensures r == if s.failing then Err(Io) else WriteResult(Encode(t, value, Little), old(s.Room()))
  {
    r := WriteInt(s, t, value, Little);
  }

  /** `write_be_*`. */
  method WriteBe(s: Stream, t: IntType, value: int) returns (r: Result<()>)
    requires s.Valid() && t.Contains(value)
    modifies s
    ensures Writes(s, Encode(t, value, Big))
    ensures r == if s.failing then Err(Io) else WriteResult(Encode(t, value, Big), old(s.Room()))
  {
    r := WriteInt(s, t, value, Big);
  }

  /** `write_ne_*`. */
  method WriteNe(s: Stream, t: IntType, value: int) returns (r: Result<()>)
    requires s.Valid() && t.Contains(value)
    modifies s
    ensures Writes(s, Encode(t, value, SysEndianness))
    ensures r == if s.failing then Err(Io) else WriteResult(Encode(t, value, SysEndianness), old(s.Room()))
  {
    r := WriteInt(s, t, value, SysEndianness);
  }

  /** `write_f32` and `write_f64`, as bit patterns: the bytes of the unsigned
      integer of the same width. */
  method WriteFloat(s: Stream, f: FloatType, bits: int, order: Endianness) returns (r: Result<()>)
    requires s.Valid() && f.Bits().Contains(bits)
    modifies s
    ensures Writes(s, Encode(f.Bits(), bits, order))
    ensures r == if s.failing then Err(Io) else WriteResult(Encode(f.Bits(), bits, order), old(s.Room()))
  {
    r := WriteInt(s, f.Bits(), bits, order);
  }

  /** `write_le_f32` and `write_le_f64`. */
  method WriteFloatLe(s: Stream, f: FloatType, bits: int) returns (r: Result<()>)
    requires s.Valid() && f.Bits().Contains(bits)
    modifies s
    ensures Writes(s, Encode(f.Bits(), bits, Little))
    ensures r == if s.failing then Err(Io) else WriteResult(Encode(f.Bits(), bits, Little), old(s.Room()))
  {
    r := WriteFloat(s, f, bits, Little);
  }

  /** `write_be_f32` and `write_be_f64`. */
  method WriteFloatBe(s: Stream, f: FloatType, bits: int) returns (r: Result<()>)
    requires s.Valid() && f.Bits().Contains(bits)
    modifies s
    ensures Writes(s, Encode(f.Bits(), bits, Big))
    ensures r == if s.failing then Err(Io) else WriteResult(Encode(f.Bits(), bits, Big), old(s.Room()))
  {
    r := WriteFloat(s, f, bits, Big);
  }

  /** `write_ne_f32` and `write_ne_f64`: both use the native order. */
  method WriteFloatNe(s: Stream, f: FloatType, bits: int) returns (r: Result<()>)
    requires s.Valid() && f.Bits().Contains(bits)
    modifies s
    ensures Writes(s, Encode(f.Bits(), bits, SysEndianness))
    ensures r == if s.failing then Err(Io) else WriteResult(Encode(f.Bits(), bits, SysEndianness), old(s.Room()))
  {
    r := WriteFloat(s, f, bits, SysEndianness);
  }

  /** `write_string`: the text's UTF-8 bytes and nothing else. */
  method WriteString(s: Stream, text: seq<byte>) returns (r: Result<()>)
    requires s.Valid() && ValidUtf8(text)
    modifies s
    ensures Writes(s, text)
    ensures r == if s.failing then Err(Io) else WriteResult(text, old(s.Room()))
  {
    r := WriteAll(s, text);
  }

  /** `write_nt_string`: the text's bytes, then a zero byte. A zero byte
      inside the text is written like any other. The two writes together
      leave the stream as one write of `text + [0]` would. */
  method WriteNtString(s: Stream, text: seq<byte>) returns (r: Result<()>)
    requires s.Valid() && ValidUtf8(text)
    modifies s
    ensures Writes(s, text + [0])
    ensures r == if s.failing then Err(Io) else WriteResult(text + [0], old(s.Room()))
  {
    ghost var data, pos, room := s.data, s.pos, s.Room();
    var count :- s.Write(text);
    if count != |text| {
      assert (text + [0])[..count] == text[..count];
      return Err(UnexpectedEof);
    }
    r := WriteU8(s, 0);
    TextThenZero(data, pos, room, text);
  }

  /** Writing `text` whole and then as much of a zero byte as the remaining
      room takes leaves the bytes one write of `text + [0]` would. */
  lemma TextThenZero(data: seq<byte>, pos: nat, room: int, text: seq<byte>)
    requires |text| <= room
    ensures
      var rest := [0][..Min(1, room - |text|)];
      && |text| + |rest| == Min(|text| + 1, room)
      && Overwrite(Overwrite(data, pos, text[..|text|]), pos + |text|, rest)
         == Overwrite(data, pos, (text + [0])[..Min(|text| + 1, room)])
  {
    var rest := [0][..Min(1, room - |text|)];
    assert text[..|text|] == text;
    OverwriteTwice(data, pos, text, rest);
    assert text + rest == (text + [0])[..Min(|text| + 1, room)];
  }
}
