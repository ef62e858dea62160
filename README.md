# binre in Dafny

A model of `binre`, an endian-aware binary codec for Rust, made of three
extension traits. The reader (on any `Read` stream) reads `u8` … `i64` and
`f32`/`f64` in an explicit, little, big or native byte order, and strings in
three encodings: fixed-size, null-terminated and size-prefixed. The writer (on
a `Write + Seek` stream) writes the same numbers in the same orders, and text
raw or null-terminated; it has no size-prefixed write. The utilities (on a
`Seek` stream) skip bytes, align the cursor and report the position and the
stream's size.

Layout, following the crate's files:

- `io.dfy` (`StdIo`) — the stream the extension methods work on: `io::Result`
  and the error kinds the crate uses, and `Stream`, an in-memory cursor in the
  manner of `std::io::Cursor<Vec<u8>>` with `Read`, `Write` and `Seek`.
- `bytes.dfy` (`Bytes`) — `from_le_bytes`/`from_be_bytes`,
  `to_le_bytes`/`to_be_bytes`, the `as` casts between signed and unsigned
  types of one width, and `slice::reverse`, with their round trips.
- `endianness.dfy` (`Endian`) — `Endianness`, the native-order probe,
  `SYS_ENDIANNESS` and `swap_inplace` (an in-place method on an `array`, proved
  against the value-level `Swapped`).
- `int_codec.dfy` (`IntCodec`) — the six multi-byte integer types as one
  `IntType`, the float types as bit patterns, and the byte encoding of a value
  in an order, with its round trips.
- `utf8.dfy` (`Utf8`) — what `String::from_utf8` accepts: the well-formed
  UTF-8 of section 4 of RFC 3629.
- `binary_reader.dfy` (`BinaryReader`) — the `BinaryReader` trait. Each read is a
  method on `Stream` proved against an outcome function of the bytes the stream
  could still deliver (`RawRead`, `IntRead`, `DelimRead`, `FixedStringRead`,
  `NtStringRead`, …) and states how far the cursor moves (`Consumes`).
- `binary_writer.dfy` (`BinaryWriter`) — `BinaryWriterExt`. Each write states
  the bytes it emits; the stream ends up as after one `Write::write` of those
  bytes (`Writes`), and the write fails with `UnexpectedEof` exactly when they
  do not all fit.
- `binary_utils.dfy` (`BinaryUtils`) — `BinaryUtils`: `ignore`, `tell`,
  `buffer_size`, `next_alignment`, and the checked `u64` arithmetic they use.
- `round_trip.dfy` (`RoundTrip`) — what the writer and the reader promise
  together, as lemmas on the outcome functions and as write–seek–read sessions
  on fresh streams.

The native byte order is the constant `SysEndianness` (little-endian, as on
the usual hosts). Every lemma about swapping takes the native order as a
parameter, so those facts hold on a big-endian host too.

Text is carried as its UTF-8 bytes (`seq<byte>`). A Rust `&str` is always
well formed, so the string writes require `ValidUtf8` of their argument.

The stream has two knobs that stand for what a real stream can do. `limit` is
the most the medium holds: a seek beyond it stops there and a write is cut
short there, so the short-read, short-write and short-seek branches of the
crate are all reachable. `failing` makes every call report an I/O error, so
the propagation of a stream's own errors through `?` is modelled too.

## Model

| member | source | states |
|---|---|---|
| `Endian.Swapped` | src/endianness.rs:9-15 | the swapped bytes are the input reversed when the requested order differs from the native one and the input itself otherwise, element by element, on a host of either order |
| `Endian.SwapInPlace` | src/endianness.rs:9-15 | the array afterwards holds `Swapped` of its old contents for the process's native order |
| `Endian.SwapInvolution` | src/endianness.rs:9-15 | swapping twice with the same requested order gives the original bytes back |
| `Endian.SwapLittleIsReversedBig` | src/endianness.rs:10-12 | the Little swap of a buffer is the reverse of its Big swap, whatever the native order |
| `Endian.SwapNativeIsIdentity` | src/endianness.rs:13 | swapping with the native order leaves any buffer unchanged |
| `Endian.SwapShortIsIdentity` | src/endianness.rs:11-12 | a buffer of zero or one byte is unchanged by either order |
| `Endian.NativeFromProbe` | src/endianness.rs:26-29 | the probe byte 0x34 gives Little, 0x12 gives Big, and any other byte gives no order (the panic) |
| `Endian.ProbeDetectsNative` | src/endianness.rs:17-32 | on a host of either order the probe byte of the stored 0x1234 names that order, so the panic is unreachable |
| `Endian.FromNeBytesOfSwapped` | src/binary_reader.rs:233-242 | swapping read bytes for an order and reinterpreting them natively yields their value in that order, on either host |
| `Endian.SwappedToNeBytes` | src/binary_writer.rs:94-103 | native bytes of a value swapped for an order are its bytes in that order, on either host |
| `Bytes.SignedRoundTrip` | src/binary_reader.rs:197-205 | the two's-complement reinterpretation of a signed value's bit pattern is the value |
| `Bytes.UnsignedRoundTrip` | src/binary_writer.rs:77-83 | the bit pattern of the signed reinterpretation of a bit pattern is the pattern |
| `IntCodec.DecodeEncode` | src/binary_reader.rs:233-242 | decoding, in an order, the encoding of a value in that order gives the value, for every multi-byte integer type |
| `IntCodec.EncodeDecode` | src/binary_writer.rs:94-103 | encoding the decoded value gives the same bytes back, so distinct byte patterns decode to distinct values |
| `IntCodec.EncodeLittleIsReversedBig` | src/binary_writer.rs:113-128 | the little-endian encoding of a value is the reverse of its big-endian encoding |
| `IntCodec.DecodeSignedIsReinterpreted` | src/binary_reader.rs:361-370 | a signed read is the two's-complement reinterpretation of the unsigned read of the same bytes |
| `IntCodec.NativeReadIsOrderedRead` | src/binary_reader.rs:486-495 | the swap-then-`from_ne_bytes` path of a read decodes the bytes in the requested order on either host |
| `IntCodec.NativeWriteIsOrderedWrite` | src/binary_writer.rs:211-220 | the `to_ne_bytes`-then-swap path of a write gives the encoding in the requested order on either host |
| `Utf8.CharLength` | src/binary_reader.rs:1200-1209 | a character is one ASCII byte, or a lead byte in 0xC2..0xF4 followed by continuation bytes, and never longer than the input |
| `Utf8.AsciiIsValid` | src/binary_reader.rs:1200-1209 | text made only of bytes below 0x80 is accepted by `String::from_utf8` |
| `Utf8.ConcatIsValid` | src/binary_reader.rs:1200-1209 | joining two well-formed texts gives well-formed text |
| `Utf8.PrefixBeforeZeroIsValid` | src/binary_reader.rs:1245-1248 | the part of a well-formed text before its first zero byte is well formed |
| `BinaryReader.RawRead` | src/binary_reader.rs:123-130 | reading n bytes succeeds iff n bytes remain, and then gives exactly the next n bytes; otherwise `UnexpectedEof` |
| `BinaryReader.ReadRaw` | src/binary_reader.rs:123-130 | the result is `RawRead` of the unread bytes (or the stream's own error) and the cursor moves over what the read obtained, even when short |
| `BinaryReader.FirstIndex` | src/binary_reader.rs:143-153 | the index found holds the delimiter and no earlier byte does; none is found iff the delimiter is absent |
| `BinaryReader.FirstIndexAt` | src/binary_reader.rs:143-153 | a position holding the delimiter with none before it is the first index |
| `BinaryReader.DelimRead` | src/binary_reader.rs:143-153 | succeeds iff the delimiter occurs; the result has no delimiter and is followed by one in the input; otherwise `UnexpectedEof` |
| `BinaryReader.DelimConsumed` | src/binary_reader.rs:143-153 | on success the read consumes the result and the delimiter, one byte more than it returns |
| `BinaryReader.ReadToDelim` | src/binary_reader.rs:143-153 | the byte-by-byte loop returns `DelimRead` of the unread bytes and consumes `DelimConsumed` of them |
| `BinaryReader.ByteRead` | src/binary_reader.rs:164-172 | one byte read gives the next byte, or `UnexpectedEof` on an exhausted stream |
| `BinaryReader.ReadU8` | src/binary_reader.rs:164-172 | the result is `ByteRead` of the unread bytes and the cursor moves over at most one byte |
| `BinaryReader.ReadI8` | src/binary_reader.rs:197-205 | the result is the next byte reinterpreted as two's complement, in -128..127, or `UnexpectedEof` |
| `BinaryReader.ReadIntoU8` | src/binary_reader.rs:182-186 | the target receives the byte read, and keeps its value when the read fails |
| `BinaryReader.ReadIntoI8` | src/binary_reader.rs:215-219 | the target receives the signed byte read, and keeps its value when the read fails |
| `BinaryReader.IntRead` | src/binary_reader.rs:233-242 | reading a value of type T succeeds iff `size_of::<T>()` bytes remain, and gives the value whose encoding in the order is those bytes |
| `BinaryReader.ReadInt` | src/binary_reader.rs:233-242 | the swap-and-reinterpret read returns `IntRead` of the unread bytes in the requested order, whatever the native order |
| `BinaryReader.ReadLe` | src/binary_reader.rs:252-254 | `read_le_*` is the read with Little |
| `BinaryReader.ReadBe` | src/binary_reader.rs:264-266 | `read_be_*` is the read with Big |
| `BinaryReader.ReadNe` | src/binary_reader.rs:276-278 | `read_ne_*` is the read with the native order |
| `BinaryReader.Into` | src/binary_reader.rs:292-296 | a successful read's value goes to the target; a failed read leaves the target and passes its error on |
| `BinaryReader.ReadInto` | src/binary_reader.rs:292-296 | `read_into_*` stores `IntRead` of the unread bytes in the target, or keeps the target and reports the error |
| `BinaryReader.ReadIntoLe` | src/binary_reader.rs:309-313 | `read_into_le_*` is `read_into_*` with Little |
| `BinaryReader.ReadIntoBe` | src/binary_reader.rs:326-330 | `read_into_be_*` is `read_into_*` with Big |
| `BinaryReader.ReadIntoNe` | src/binary_reader.rs:343-347 | `read_into_ne_*` is `read_into_*` with the native order |
| `BinaryReader.ReadFloat` | src/binary_reader.rs:955-964 | a float read gives the bit pattern the unsigned read of its width gives |
| `BinaryReader.ReadFloatLe` | src/binary_reader.rs:974-976 | `read_le_f32`/`read_le_f64` read the pattern with Little |
| `BinaryReader.ReadFloatBe` | src/binary_reader.rs:986-988 | `read_be_f32`/`read_be_f64` read the pattern with Big |
| `BinaryReader.NeFloatOrder` | src/binary_reader.rs:1116-1118 | on any host, `read_ne_f32` uses the native order, while `read_ne_f64` and both `read_into_ne_*` float reads use `Big` |
| `BinaryReader.ReadNeFloat` | src/binary_reader.rs:998-1000 | `read_ne_f32` reads with the native order and `read_ne_f64` with Big, as written |
| `BinaryReader.ReadNeFloatNative` | src/binary_reader.rs:1116-1118 | `read_ne_f64` corrected to the native order, as `read_ne_f32` |
| `BinaryReader.ReadIntoFloat` | src/binary_reader.rs:1013-1017 | `read_into_f32`/`read_into_f64` store the pattern read, or keep the target on error |
| `BinaryReader.ReadIntoFloatLe` | src/binary_reader.rs:1027-1031 | `read_into_le_f32`/`read_into_le_f64` read with Little |
| `BinaryReader.ReadIntoFloatBe` | src/binary_reader.rs:1041-1045 | `read_into_be_f32`/`read_into_be_f64` read with Big |
| `BinaryReader.ReadIntoNeFloat` | src/binary_reader.rs:1055-1059 | `read_into_ne_f32` and `read_into_ne_f64` (lines 1174-1178) read with Big, as written |
| `BinaryReader.ReadIntoNeFloatNative` | src/binary_reader.rs:1174-1178 | the `read_into_ne_*` float reads corrected to the native order |
| `BinaryReader.TextOf` | src/binary_reader.rs:1200-1209 | bytes are accepted as text iff they are well-formed UTF-8, and are then kept as they are; otherwise `InvalidData` |
| `BinaryReader.FixedStringRead` | src/binary_reader.rs:1193-1213 | a short stream gives `UnexpectedEof`; otherwise the next `size` bytes are the text iff they are well-formed UTF-8, and `InvalidData` if not |
| `BinaryReader.ReadFixedSizeString` | src/binary_reader.rs:1193-1213 | the result is `FixedStringRead` of the unread bytes and the cursor moves over what the read obtained |
| `BinaryReader.ReadIntoFixedSizeString` | src/binary_reader.rs:1227-1235 | the target receives the text read, or keeps its value on error |
| `BinaryReader.NtStringRead` | src/binary_reader.rs:1245-1248 | no zero byte gives `UnexpectedEof`; otherwise the text before the first zero byte, without it, iff it is well formed, else `InvalidData` |
| `BinaryReader.ReadNullTerminatedString` | src/binary_reader.rs:1245-1248 | the result is `NtStringRead` of the unread bytes and the cursor moves past the terminator |
| `BinaryReader.ReadIntoNullTerminatedString` | src/binary_reader.rs:1258-1261 | the target receives the text read, or keeps its value on error |
| `BinaryReader.PrefixLength` | src/binary_reader.rs:1278-1288 | the bytes obtained, zero-extended into the 8-byte buffer at the low end for Little and at the start of the last `width` bytes for Big, read as a `usize` in that order: their little-endian value for Little, and for Big their big-endian value shifted up by each missing byte |
| `BinaryReader.PrefixLengthOfFullPrefix` | src/binary_reader.rs:1281-1290 | a complete prefix, placed in the zeroed 8-byte buffer at the low end for Little and in the last `width` bytes for Big, gives its unsigned value in that order |
| `BinaryReader.EmptyPrefixIsZero` | src/binary_reader.rs:1281-1290 | a prefix read that obtains no bytes leaves the zeroed buffer, which gives length 0 |
| `BinaryReader.PrefixLengthOfBuffer` | src/binary_reader.rs:1278-1288 | whatever bytes the prefix read placed in the zeroed buffer (low end for Little, start of the high `width` bytes for Big), the buffer's value in that order is the prefix length |
| `BinaryReader.ReadPrefixLength` | src/binary_reader.rs:1281-1290 | the prefix bytes obtained go to the low end of the buffer for Little and to its high end for Big, and the buffer is read as a `usize` in that order, whatever the count |
| `BinaryReader.ReadSizePrefixedString` | src/binary_reader.rs:1274-1292 | after a complete prefix the result is the fixed-size read of the length it gives; after a short prefix, the fixed-size read of the zero-extended partial prefix |
| `BinaryReader.ReadIntoSizePrefixedString` | src/binary_reader.rs:1303-1311 | the target receives the text read, or keeps its value on error |
| `BinaryReader.SizePrefixedRead` | src/binary_reader.rs:1274-1292 | the corrected outcome: a stream ending inside the prefix gives `UnexpectedEof`; after a complete prefix it is the fixed-size read of the length the prefix gives (`UnexpectedEof` when the text is short, `InvalidData` when it is not UTF-8); success returns the `FromBytes(prefix)` bytes after the prefix, well formed |
| `BinaryReader.ReadSizePrefixedStringChecked` | src/binary_reader.rs:1274-1292 | the size-prefixed read with the prefix count checked returns `SizePrefixedRead` of the unread bytes |
| `BinaryWriter.WriteResult` | src/binary_writer.rs:61-67 | a write succeeds iff all its bytes fit, and a short write is `UnexpectedEof` |
| `BinaryWriter.WriteAll` | src/binary_writer.rs:565-571 | the stream holds the bytes written at the cursor (cut at the limit) and the result is `WriteResult` |
| `BinaryWriter.WriteU8` | src/binary_writer.rs:61-67 | exactly the one byte is written |
| `BinaryWriter.WriteI8` | src/binary_writer.rs:77-83 | the one byte written is the two's-complement pattern of the value |
| `BinaryWriter.WriteInt` | src/binary_writer.rs:94-103 | the `size_of` bytes written are the encoding of the value in the requested order, whatever the native order, signed types in two's complement |
| `BinaryWriter.WriteLe` | src/binary_writer.rs:126-128 | `write_le_*` writes the little-endian encoding |
| `BinaryWriter.WriteBe` | src/binary_writer.rs:113-115 | `write_be_*` writes the big-endian encoding |
| `BinaryWriter.WriteNe` | src/binary_writer.rs:139-141 | `write_ne_*` writes the encoding in the native order |
| `BinaryWriter.WriteFloat` | src/binary_writer.rs:447-456 | a float write emits the encoding of its bit pattern in the requested order |
| `BinaryWriter.WriteFloatLe` | src/binary_writer.rs:480-482 | `write_le_f32`/`write_le_f64` emit the little-endian pattern |
| `BinaryWriter.WriteFloatBe` | src/binary_writer.rs:467-469 | `write_be_f32`/`write_be_f64` emit the big-endian pattern |
| `BinaryWriter.WriteFloatNe` | src/binary_writer.rs:552-554 | `write_ne_f32` and `write_ne_f64` both emit the pattern in the native order |
| `BinaryWriter.WriteString` | src/binary_writer.rs:565-571 | exactly the text's bytes are written, with no prefix and no terminator |
| `BinaryWriter.WriteNtString` | src/binary_writer.rs:582-589 | the stream ends as after one write of the text followed by a single zero byte; success iff both fit |
| `BinaryWriter.TextThenZero` | src/binary_writer.rs:582-589 | a whole write of the text followed by a write of one zero byte into what room is left leaves the bytes of one write of the text and the zero byte |
| `BinaryUtils.CheckedAdd` | src/binary_utils.rs:25-28 | the sum is given iff it fits in a `u64` |
| `BinaryUtils.WrapI64` | src/binary_utils.rs:30 | `length as i64` is congruent to the length modulo 2^64 |
| `BinaryUtils.NextMultipleOf` | src/binary_utils.rs:77-80 | the target is a multiple of the alignment, at least the position and less than position plus alignment; an aligned position is kept |
| `BinaryUtils.RoundUpIsMultiple` | src/binary_utils.rs:77-80 | rounding an unaligned position up by what it lacks gives a multiple |
| `BinaryUtils.NextMultipleIsLeast` | src/binary_utils.rs:77-80 | no multiple at or above the position lies below the target |
| `BinaryUtils.NextMultipleNone` | src/binary_utils.rs:77-80 | there is no target iff no `u64` at or above the position is a multiple |
| `BinaryUtils.AlignToEightExamples` | src/binary_utils.rs:77-80 | aligning to 8 keeps 0 and 8 and moves 3 to 8 |
| `BinaryUtils.Ignore` | src/binary_utils.rs:20-35 | zero does nothing; overflow of the position is `OutOfMemory`; a length above `i64::MAX` is refused by the seek; a short seek is `UnexpectedEof` at the limit; otherwise the cursor moves by the length |
| `BinaryUtils.Tell` | src/binary_utils.rs:41-43 | the position is returned and left unchanged |
| `BinaryUtils.BufferSize` | src/binary_utils.rs:52-59 | the stream's length is returned and the position is restored exactly |
| `BinaryUtils.NextAlignment` | src/binary_utils.rs:72-87 | zero alignment is `InvalidInput` with no seek; no `u64` multiple is `OutOfMemory`; a short seek is `UnexpectedEof`; otherwise the cursor lands on `NextMultipleOf` |
| `RoundTrip.IntWriteThenRead` | src/binary_writer.rs:94-103 | reading a type in an order where its write in that order placed a value gives the value back, over any prior contents |
| `RoundTrip.StringWriteThenRead` | src/binary_writer.rs:565-571 | a fixed-size read of the written length gives the text `write_string` wrote |
| `RoundTrip.BeforeZero` | src/binary_writer.rs:582-589 | the text before the first zero byte has no zero byte, and is the whole text iff the text has none |
| `RoundTrip.NtStringWriteThenRead` | src/binary_writer.rs:582-589 | reading what `write_nt_string` wrote gives the text up to its first zero byte and consumes one byte more |
| `RoundTrip.NtStringRoundTripIff` | src/binary_writer.rs:582-589 | the null-terminated round trip returns the text exactly iff the text contains no zero byte |
| `RoundTrip.HiWorld` | src/binary_reader.rs:1245-1248 | "hi\0world" reads as "hi" and consumes three bytes |
| `RoundTrip.FixedStringReadOfPrefix` | src/binary_reader.rs:1193-1213 | a fixed-size read of a well-formed text's length gives the text, whatever follows it |
| `RoundTrip.SizePrefixedRoundTrip` | src/binary_reader.rs:1274-1292 | a length in 1, 2, 4 or 8 bytes in either order followed by the text is read back as the text by the checked read |
| `RoundTrip.SizePrefixedAsWrittenRoundTrip` | src/binary_reader.rs:1274-1292 | the read as written gives the text back too when the prefix is complete |
| `RoundTrip.IntSession` | src/binary_reader.rs:233-242 | write, seek to the start and read of any integer type and order on a fresh stream give the value back |
| `RoundTrip.NtStringSession` | src/binary_writer.rs:582-589 | write, seek and null-terminated read give the text back iff it has no zero byte, and its part before the first otherwise |
| `RoundTrip.HiWorldSession` | src/binary_reader.rs:1245-1248 | reading "hi\0world" gives "hi" and leaves the position at 3 |
| `RoundTrip.LeBeSession` | src/binary_writer.rs:113-128 | the le and be writes of one value emit the same bytes in reverse order |
| `RoundTrip.EmptyStreamSizePrefixed` | src/binary_reader.rs:1274-1292 | as written, a `u16`-prefixed read of an empty stream succeeds with the empty string |
| `RoundTrip.EmptyStreamSizePrefixedChecked` | src/binary_reader.rs:1274-1292 | with the prefix count checked, the same read is `UnexpectedEof` |
| `RoundTrip.IgnoreSession` | src/binary_utils.rs:20-35 | `ignore(n)` then `tell` gives n from the start, or `InvalidInput` with the cursor kept when n exceeds `i64::MAX` |
| `RoundTrip.BufferSizeSession` | src/binary_utils.rs:52-59 | `buffer_size` anywhere in a stream gives its length and `tell` afterwards gives the old position |
| `RoundTrip.AlignSession` | src/binary_utils.rs:72-87 | aligning lands on the least multiple at or above the position |
| `RoundTrip.LittleOneReadBig` | src/binary_reader.rs:1116-1118 | the little-endian bytes of the 64-bit pattern 1 read big-endian give 2^56 |
| `RoundTrip.LittleOneReadBig32` | src/binary_reader.rs:1055-1059 | the little-endian bytes of the 32-bit pattern 1 read big-endian give 2^24 |
| `RoundTrip.NeF64Session` | src/binary_reader.rs:1116-1118 | as written, `write_ne_f64` then `read_ne_f64` of the pattern 1 give 2^56 on a little-endian host |
| `RoundTrip.NeF32IntoSession` | src/binary_reader.rs:1055-1059 | as written, `write_ne_f32` then `read_into_ne_f32` of the pattern 1 store 2^24 on a little-endian host |
| `RoundTrip.NeFloatNativeSession` | src/binary_writer.rs:493-495 | with the native order, the native-order float writes and reads give back any bit pattern |

## Left out

- Floating-point values: `f32` and `f64` are carried as their IEEE 754 bit
  patterns (`from_ne_bytes` on a float is `from_bits` of the unsigned read);
  nothing about float arithmetic, NaN payloads or rounding is modelled.
- Real streams (files, buffered readers) and operating-system errors: the
  model's `Stream` is an in-memory cursor; any error a stream itself reports is
  the one kind `Io`, reported on every call of a `failing` stream. A stream that
  fails only on some calls is not modelled.
- `Stream.Read` copies as many bytes as are available, as `Cursor` does; a
  stream that returns fewer bytes than are available is not modelled.
- `BinaryUtils.BufferSize`: its second and third seeks cannot fail on the
  model's stream once the first succeeded, so the error propagation of those
  two `?` is not exercised.
- `BinaryUtils.NextAlignment`: its final seek cannot fail on the model's
  stream once the first seek succeeded, so that `?` is not exercised.
- `src/lib.rs` is module wiring and a test that opens a file; it is not part of
  this model.
- The native-order probe's `unsafe` union read and its `LazyLock`
  initialisation: the native order is the constant `SysEndianness`, and the
  probe is modelled on the two byte layouts of 0x1234.
- The size-prefixed read's prefix type is given by its width, one of 1, 2, 4
  and 8 bytes; a 16-byte prefix type would panic on slicing the 8-byte buffer
  and is excluded by the precondition.
- Platform widths: `usize` is taken as 64 bits, so the `as usize` cast in
  `buffer_size` and the `length as u64` cast in `ignore` are the identity.
- BinaryReader.ReadRaw, BinaryReader.ReadFixedSizeString,
  BinaryReader.ReadIntoFixedSizeString, BinaryReader.ReadSizePrefixedString,
  BinaryReader.ReadIntoSizePrefixedString and
  BinaryReader.ReadSizePrefixedStringChecked: the source allocates a zeroed
  buffer of `size` bytes before reading (`vec![0u8; size]`, src/binary_reader.rs:124
  and 1194). A size above `isize::MAX` panics with a capacity overflow, and an
  allocation the system cannot satisfy aborts the process. A size prefix such as
  0xFFFF_FFFF_FFFF_FFFF read from the stream reaches that path. The model has
  unbounded memory, so such a read reports `UnexpectedEof` (the stream holds
  fewer bytes) where the source panics or aborts.
- `Arc<[u8]>` and `String` allocation, and the message text of the errors:
  results are byte sequences and errors are their kinds.
- UTF-8: validation follows section 4 of RFC 3629 as `String::from_utf8` does;
  decoding to Unicode scalar values is not modelled, as the crate keeps the bytes.

## Findings

| source | as written | input that shows it | evidently intended | confidence | as-written member | corrected member |
|---|---|---|---|---|---|---|
| src/binary_reader.rs:1274-1292 | the count returned by the prefix read is ignored, so missing prefix bytes read as zero | `read_size_prefixed_string::<u16>` on an empty stream returns `Ok("")` | `UnexpectedEof` when the stream ends inside the prefix, as every other read of the reader checks its count | medium, not executed | `RoundTrip.EmptyStreamSizePrefixed` | `BinaryReader.ReadSizePrefixedStringChecked` |
| src/binary_reader.rs:1116-1118 | `read_ne_f64` reads with `Big` | on a little-endian host, `write_ne_f64` of the bit pattern 1 read back with `read_ne_f64` gives 2^56 | the native order, as `read_ne_f32` and `write_ne_f64` use | high, not executed | `RoundTrip.NeF64Session` | `BinaryReader.ReadNeFloatNative` |
| src/binary_reader.rs:1055-1059 | `read_into_ne_f32` and `read_into_ne_f64` (lines 1174-1178) read with `Big` | on a little-endian host, `write_ne_f32` of the bit pattern 1 read back with `read_into_ne_f32` stores 2^24 | the native order, as the integer `read_into_ne_*` use | high, not executed | `RoundTrip.NeF32IntoSession` | `BinaryReader.ReadIntoNeFloatNative` |

The corrected size-prefixed read is the one `RoundTrip.SizePrefixedRoundTrip`
and `RoundTrip.EmptyStreamSizePrefixedChecked` are about, and the corrected
native float reads are the ones `RoundTrip.NeFloatNativeSession` is about.
The as-written members stay in the model, since they are what the crate does.
