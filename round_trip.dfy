/** What the writer and the reader promise together: bytes written by one
    are read back as the value that was written, both as facts about the
    outcome functions and as whole write–seek–read sessions on fresh
    in-memory streams. */
module RoundTrip {
  import opened StdIo
  import opened Bytes
  import opened Endian
  import opened Utf8
  import opened IntCodec
  import opened BinaryReader
  import opened BinaryWriter
  import opened BinaryUtils

  /** The bytes after the place a chunk was written start with the chunk. */
  lemma OverwriteReadBack(data: seq<byte>, at: nat, chunk: seq<byte>)
    ensures |Overwrite(data, at, chunk)| >= at + |chunk|
    ensures Overwrite(data, at, chunk)[at..][..|chunk|] == chunk
  {
    var r := Overwrite(data, at, chunk);
    forall i | 0 <= i < |chunk| ensures r[at..][..|chunk|][i] == chunk[i] {
      assert r[at + i] == chunk[i - 0];
    }
  }

  /** A read of `t` in `order` at the place `write_T(v, order)` wrote gives
      `v`, whatever the stream held before. */
  lemma IntWriteThenRead(t: IntType, v: int, order: Endianness, data: seq<byte>, at: nat)
    requires t.Contains(v)
    ensures IntRead(t, Overwrite(data, at, Encode(t, v, order))[at..], order) == Ok(v)
  {
    var bytes := Encode(t, v, order);
    OverwriteReadBack(data, at, bytes);
    DecodeEncode(t, v, order);
  }

  /** A fixed-size read of the written length gives back the text
      `write_string` wrote. */
  lemma StringWriteThenRead(text: seq<byte>, data: seq<byte>, at: nat)
    requires ValidUtf8(text)
    ensures FixedStringRead(Overwrite(data, at, text)[at..], |text|) == Ok(text)
  {
    OverwriteReadBack(data, at, text);
  }

  /** The text before the first zero byte of `text`, or all of it. */
  function BeforeZero(text: seq<byte>): (r: seq<byte>)
    ensures 0 !in r && |r| <= |text| && r == text[..|r|]
    ensures r == text <==> 0 !in text
    ensures |r| < |text| ==> text[|r|] == 0
  {
    match FirstIndex(text, 0)
    case Some(i) => text[..i]
    case None => text
  }

  /** A null-terminated read at the place `write_nt_string(text)` wrote
      gives the text up to its first zero byte, consuming that byte. */
  lemma {:induction false} NtStringWriteThenRead(text: seq<byte>, rest: seq<byte>)
    requires ValidUtf8(text)
    ensures NtStringRead(text + [0] + rest) == Ok(BeforeZero(text))
    ensures DelimConsumed(text + [0] + rest, 0) == |BeforeZero(text)| + 1
  {
    var u := text + [0] + rest;
    var k := |BeforeZero(text)|;
    assert u[k] == 0;
    assert u[..k] == BeforeZero(text);
    FirstIndexAt(u, 0, k);
    if k < |text| {
      PrefixBeforeZeroIsValid(text, k);
    }
  }

  /** The null-terminated round trip gives back exactly the text written iff
      the text has no zero byte: `write_nt_string` does not reject one. */
  lemma NtStringRoundTripIff(text: seq<byte>, rest: seq<byte>)
    requires ValidUtf8(text)
    ensures NtStringRead(text + [0] + rest) == Ok(text) <==> 0 !in text
  {
    NtStringWriteThenRead(text, rest);
  }

  /** The bytes of "hi\0world". */
  const HI_WORLD: seq<byte> := [0x68, 0x69, 0, 0x77, 0x6F, 0x72, 0x6C, 0x64]

  /** "hi\0world": the null-terminated read gives "hi" and consumes three
      bytes, leaving "world". */
  lemma HiWorld()
    ensures NtStringRead(HI_WORLD) == Ok([0x68, 0x69])
    ensures DelimConsumed(HI_WORLD, 0) == 3
  {
    var text: seq<byte> := [0x68, 0x69];
    var rest: seq<byte> := [0x77, 0x6F, 0x72, 0x6C, 0x64];
    assert HI_WORLD == text + [0] + rest;
    AsciiIsValid(text);
    NtStringWriteThenRead(text, rest);
  }

  /** A fixed-size read of a text's length from the text and what follows
      gives the text. */
  lemma FixedStringReadOfPrefix(text: seq<byte>, rest: seq<byte>)
    requires ValidUtf8(text)
    ensures FixedStringRead(text + rest, |text|) == Ok(text)
  {
    assert (text + rest)[..|text|] == text;
  }

  /** A length written in `width` bytes in `order` (1, 2, 4 and 8 among
      them), followed by the text, is read back as the text by the checked
      size-prefixed read. */
  lemma SizePrefixedRoundTrip(text: seq<byte>, width: nat, order: Endianness, rest: seq<byte>)
    requires width <= 8 && |text| < Pow256(width) && ValidUtf8(text)
    ensures SizePrefixedRead(ToBytes(|text|, width, order) + text + rest, width, order) == Ok(text)
  {
    var prefix := ToBytes(|text|, width, order);
    var u := prefix + text + rest;
    PrefixSplit(prefix, text, rest);
    FromBytesOfToBytes(|text|, width, order);
    FixedStringReadOfPrefix(text, rest);
  }

  /** The size-prefixed read as written gives the same text back, its
      prefix being complete. */
  lemma SizePrefixedAsWrittenRoundTrip(text: seq<byte>, width: nat, order: Endianness, rest: seq<byte>)
    requires width <= 8 && |text| < Pow256(width) && ValidUtf8(text)
    ensures
      var u := ToBytes(|text|, width, order) + text + rest;
      FixedStringRead(u[width..], PrefixLength(u[..width], width, order)) == Ok(text)
  {
    var prefix := ToBytes(|text|, width, order);
    PrefixSplit(prefix, text, rest);
    FromBytesOfToBytes(|text|, width, order);
    PrefixLengthOfFullPrefix(prefix, order);
    FixedStringReadOfPrefix(text, rest);
  }

  lemma PrefixSplit(prefix: seq<byte>, text: seq<byte>, rest: seq<byte>)
    ensures (prefix + text + rest)[..|prefix|] == prefix
    ensures (prefix + text + rest)[|prefix|..] == text + rest
  {
  }

  // ---------------------------------------------------------------- sessions

  /** `write_T(v, order)` into an empty stream, a seek back to the start
      and `read_T(order)` give `v`. */
  method IntSession(t: IntType, v: int, order: Endianness) returns (r: Result<int>)
    requires t.Contains(v)
    ensures r == Ok(v)
  {
    var s := new Stream([], 8, false);
    var w := WriteInt(s, t, v, order);
    assert Encode(t, v, order)[..t.Size()] == Encode(t, v, order);
    var p := s.Seek(Start(0));
    IntWriteThenRead(t, v, order, [], 0);
    assert s.Unread() == Overwrite([], 0, Encode(t, v, order))[0..];
    r := ReadInt(s, t, order);
  }

  /** `write_nt_string(text)` then `read_null_terminated_string` gives the
      text back iff it holds no zero byte, and otherwise its part before
      the first one. */
  method NtStringSession(text: seq<byte>) returns (r: Result<seq<byte>>)
    requires ValidUtf8(text) && |text| < U64_MAX
    ensures r == Ok(BeforeZero(text))
    ensures r == Ok(text) <==> 0 !in text
  {
    var s := new Stream([], |text| + 1, false);
    var w := WriteNtString(s, text);
    assert s.data == text + [0] + [];
    var p := s.Seek(Start(0));
    NtStringWriteThenRead(text, []);
    r := ReadNullTerminatedString(s);
  }

  /** Reading "hi\0world" as a null-terminated string gives "hi" and leaves
      the cursor at 3, on "world". */
  method HiWorldSession() returns (r: Result<seq<byte>>, position: Result<u64>)
    ensures r == Ok([0x68, 0x69]) && position == Ok(3)
  {
    var s := new Stream(HI_WORLD, 8, false);
    assert s.Unread() == HI_WORLD;
    HiWorld();
    r := ReadNullTerminatedString(s);
    assert r == NtStringRead(HI_WORLD) && s.pos == DelimConsumed(HI_WORLD, 0);
    position := Tell(s);
  }

  /** The le and be writes of one value put the same bytes in reverse
      order. */
  method LeBeSession(t: IntType, v: int) returns (le: seq<byte>, be: seq<byte>)
    requires t.Contains(v)
    ensures |le| == |be| == t.Size() && le == Reverse(be)
  {
    var a := new Stream([], 8, false);
    var wa := WriteLe(a, t, v);
    le := a.data;
    var b := new Stream([], 8, false);
    var wb := WriteBe(b, t, v);
    be := b.data;
    EncodeLittleIsReversedBig(t, v);
  }

  /** As written, `read_size_prefixed_string::<u16>` on an empty stream
      reports success with the empty string: the prefix read obtains no
      bytes and the zeroed buffer reads as length 0. */
  method EmptyStreamSizePrefixed(order: Endianness) returns (r: Result<seq<byte>>)
    ensures r == Ok([])
  {
    var s := new Stream([], 0, false);
    EmptyPrefixIsZero(2, order);
    r := ReadSizePrefixedString(s, 2, order);
  }

  /** With the prefix's byte count checked, the same read reports
      `UnexpectedEof`, as the reader's other reads do on a short read. */
  method EmptyStreamSizePrefixedChecked(order: Endianness) returns (r: Result<seq<byte>>)
    ensures r == Err(UnexpectedEof)
  {
    var s := new Stream([], 0, false);
    r := ReadSizePrefixedStringChecked(s, 2, order);
  }

  /** `ignore(n)` within the stream, then `tell`, gives the old position
      plus `n`; a length above `i64::MAX` is refused by the seek its cast
      turns negative, and the cursor stays. */
  method IgnoreSession(contents: seq<byte>, n: nat) returns (r: Result<()>, position: Result<u64>)
    requires |contents| <= U64_MAX && n <= |contents|
    ensures n <= I64_MAX ==> r == Ok(()) && position == Ok(n)
    ensures n > I64_MAX ==> r == Err(InvalidInput) && position == Ok(0)
  {
    var s := new Stream(contents, |contents|, false);
    r := Ignore(s, n);
    position := Tell(s);
  }

  /** `buffer_size` in the middle of a stream gives its length and leaves
      the cursor where it was. */
  method BufferSizeSession(contents: seq<byte>, at: nat) returns (size: Result<u64>, position: Result<u64>)
    requires at <= |contents| <= U64_MAX
    ensures size == Ok(|contents|) && position == Ok(at)
  {
    var s := new Stream(contents, |contents|, false);
    var p := s.Seek(Start(at));
    size := BufferSize(s);
    position := Tell(s);
  }

  /** `next_alignment(a)` from position `at` lands on the least multiple of
      `a` at or above `at` when the stream reaches that far. */
  method AlignSession(at: nat, a: nat) returns (r: Result<()>, position: Result<u64>)
    requires 0 < a && at + a <= U64_MAX
    ensures r == Ok(())
    ensures position.Ok? && IsMultipleOf(position.value, a) && at <= position.value < at + a
    ensures forall m :: at <= m && IsMultipleOf(m, a) ==> position.value <= m
  {
    var s := new Stream([], at + a, false);
    var p := s.Seek(Start(at));
    RoundUpIsMultiple(at, a);
    r := NextAlignment(s, a);
    position := Tell(s);
    forall m | at <= m && IsMultipleOf(m, a) ensures position.value <= m {
      NextMultipleIsLeast(at, a, m);
    }
  }

  /** The eight bytes of the bit pattern 1, least significant first, read
      big-endian give 2^56. */
  lemma LittleOneReadBig()
    ensures IntRead(U64, Encode(U64, 1, Little), Big) == Ok(0x0100_0000_0000_0000)
  {
    var bytes: seq<byte> := [1] + Zeros(7);
    assert Encode(U64, 1, Little) == bytes;
    OneThenZerosBigValue(7);
    Pow256Values();
    assert Pow256(7) == 0x0100_0000_0000_0000;
    assert bytes[..8] == bytes;
    assert Decode(U64, bytes, Big) == BeValue(bytes);
  }

  /** A one byte followed by `k` zero bytes, read most-significant first,
      is 256 to the power `k`. */
  lemma {:induction false} OneThenZerosBigValue(k: nat)
    ensures BeValue([1] + Zeros(k)) == Pow256(k)
  {
    if k > 0 {
      var b := [1] + Zeros(k);
      assert b[..|b| - 1] == [1] + Zeros(k - 1);
      OneThenZerosBigValue(k - 1);
    }
  }

  /** The four bytes of the bit pattern 1, least significant first, read
      big-endian give 2^24. */
  lemma LittleOneReadBig32()
    ensures IntRead(U32, Encode(U32, 1, Little), Big) == Ok(0x0100_0000)
  {
    var bytes: seq<byte> := [1, 0, 0, 0];
    assert Encode(U32, 1, Little) == bytes;
    assert BeValue(bytes[..1]) == 1;
    assert bytes[..2][..1] == bytes[..1];
    assert BeValue(bytes[..2]) == 0x100;
    assert bytes[..3][..2] == bytes[..2];
    assert BeValue(bytes[..3]) == 0x1_0000;
    assert bytes[..4][..3] == bytes[..3];
    assert bytes[..4] == bytes;
  }

  /** As written, the native-order `f64` round trip fails on a
      little-endian host: `write_ne_f64` lays the bit pattern 1 out least
      significant byte first, and `read_ne_f64` reads it back big-endian,
      as 2^56. */
  method NeF64Session() returns (r: Result<int>)
    ensures r == Ok(0x0100_0000_0000_0000)
  {
    var s := new Stream([], 8, false);
    var w := WriteFloatNe(s, F64, 1);
    assert Encode(U64, 1, Little)[..8] == Encode(U64, 1, Little);
    var p := s.Seek(Start(0));
    assert s.Unread() == Encode(U64, 1, Little);
    LittleOneReadBig();
    r := ReadNeFloat(s, F64);
  }

  /** As written, `write_ne_f32` of the bit pattern 1 read back with
      `read_into_ne_f32` stores 2^24 on a little-endian host. */
  method NeF32IntoSession() returns (into: Result<()>, updated: int)
    ensures into == Ok(()) && updated == 0x0100_0000
  {
    var s := new Stream([], 4, false);
    var w := WriteFloatNe(s, F32, 1);
    assert Encode(U32, 1, Little)[..4] == Encode(U32, 1, Little);
    var p := s.Seek(Start(0));
    assert s.Unread() == Encode(U32, 1, Little);
    LittleOneReadBig32();
    into, updated := ReadIntoNeFloat(s, F32, 0);
  }

  /** With the native order, `write_ne_*` followed by `read_ne_*` and by
      `read_into_ne_*` give back any bit pattern of either float width. */
  method NeFloatNativeSession(f: FloatType, bits: int, target: int) returns (r: Result<int>, into: Result<()>, updated: int)
    requires f.Bits().Contains(bits) && f.Bits().Contains(target)
    ensures r == Ok(bits) && into == Ok(()) && updated == bits
  {
    var s := new Stream([], 8, false);
    var w := WriteFloatNe(s, f, bits);
    assert Encode(f.Bits(), bits, SysEndianness)[..f.Bits().Size()] == Encode(f.Bits(), bits, SysEndianness);
    IntWriteThenRead(f.Bits(), bits, SysEndianness, [], 0);
    assert s.data[0..] == Overwrite([], 0, Encode(f.Bits(), bits, SysEndianness))[0..];
    var p := s.Seek(Start(0));
    r := ReadNeFloatNative(s, f);
    p := s.Seek(Start(0));
    into, updated := ReadIntoNeFloatNative(s, f, target);
  }
}

