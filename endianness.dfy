/** Byte order: the two orders, the host's native order, and the swap that
    every multi-byte read and write goes through. */
module Endian {
  import opened StdIo
  import opened Bytes

  datatype Endianness = Little | Big

  /** The host's native byte order, fixed once for the whole process. The
      model's host is little-endian; every fact below that involves the native
      order is proved for an arbitrary `native`, so it holds on either host. */
  const SysEndianness: Endianness := Little

  /** The two bytes the native probe stores for 0x1234, in memory order on a
      host of order `native`. */
  function ProbeLayout(native: Endianness): (r: seq<byte>)
    ensures |r| == 2
  {
    match native
    case Little => LeBytes(0x1234, 2)
    case Big => BeBytes(0x1234, 2)
  }

  /** The native probe: the order named by the first byte of the stored
      0x1234, or `None` for the panic on any other byte. */
  function NativeFromProbe(first: byte): (r: Option<Endianness>)
    ensures r == Some(Little) <==> first == 0x34
    ensures r == Some(Big) <==> first == 0x12
  {
    if first == 0x34 then Some(Little)
    else if first == 0x12 then Some(Big)
    else None
  }

  /** The probe recognises both hosts and never reaches its panic. */
  lemma ProbeDetectsNative(native: Endianness)
    ensures NativeFromProbe(ProbeLayout(native)[0]) == Some(native)
  {
    match native
    case Little => assert LeBytes(0x1234, 2)[0] == 0x34;
    case Big => assert BeBytes(0x1234, 2)[0] == 0x12;
  }

  /** `swap_inplace` on a host of order `native`, as a value: the bytes come
      out reversed when the requested order differs from the native one and
      untouched otherwise. */
  function Swapped(bytes: seq<byte>, requested: Endianness, native: Endianness): (r: seq<byte>)
    ensures |r| == |bytes|
    ensures forall i :: 0 <= i < |bytes| ==>
      r[i] == if requested == native then bytes[i] else bytes[|bytes| - 1 - i]
  {
    match (requested, native)
    case (Little, Big) => Reverse(bytes)
    case (Big, Little) => Reverse(bytes)
    case _ => bytes
  }

  /** Swapping twice with the same order gives the original bytes back. */
  lemma SwapInvolution(bytes: seq<byte>, requested: Endianness, native: Endianness)
    ensures Swapped(Swapped(bytes, requested, native), requested, native) == bytes
  {
    if requested != native {
      ReverseReverse(bytes);
    }
  }

  /** The Little and Big swaps of one buffer are reverses of each other,
      whatever the native order. */
  lemma SwapLittleIsReversedBig(bytes: seq<byte>, native: Endianness)
    ensures Swapped(bytes, Little, native) == Reverse(Swapped(bytes, Big, native))
  {
    if native == Little {
      ReverseReverse(bytes);
    }
  }

  /** Swapping with the native order changes nothing. */
  lemma SwapNativeIsIdentity(bytes: seq<byte>, native: Endianness)
    ensures Swapped(bytes, native, native) == bytes
  {
  }

  /** A buffer of zero or one byte is unchanged by either order. */
  lemma SwapShortIsIdentity(bytes: seq<byte>, requested: Endianness, native: Endianness)
    requires |bytes| <= 1
    ensures Swapped(bytes, requested, native) == bytes
  {
    assert bytes == [] || bytes == [bytes[0]];
  }

  /** `from_ne_bytes` on a host of order `native`. */
  function FromNeBytes(bytes: seq<byte>, native: Endianness): nat
  {
    FromBytes(bytes, native)
  }

  /** The value of `bytes` in byte order `order` (`from_le_bytes` or
      `from_be_bytes`). */
  function FromBytes(bytes: seq<byte>, order: Endianness): (v: nat)
    ensures v < Pow256(|bytes|)
  {
    LeValueBound(bytes);
    BeValueBound(bytes);
    match order
    case Little => LeValue(bytes)
    case Big => BeValue(bytes)
  }

  /** The `n` bytes of `v` in byte order `order` (`to_le_bytes` or
      `to_be_bytes`). */
  function ToBytes(v: nat, n: nat, order: Endianness): (r: seq<byte>)
    ensures |r| == n
  {
    match order
    case Little => LeBytes(v, n)
    case Big => BeBytes(v, n)
  }

  /** `to_ne_bytes` on a host of order `native`. */
  function ToNeBytes(v: nat, n: nat, native: Endianness): (r: seq<byte>)
    ensures |r| == n
  {
    ToBytes(v, n, native)
  }

  /** Swapping to `order` and then reading in native layout reads the bytes
      in `order`, whatever the native order is. */
  lemma FromNeBytesOfSwapped(bytes: seq<byte>, order: Endianness, native: Endianness)
    ensures FromNeBytes(Swapped(bytes, order, native), native) == FromBytes(bytes, order)
  {
    match (order, native)
    case (Little, Big) =>
      BeValueIsReversedLe(Reverse(bytes));
      ReverseReverse(bytes);
    case (Big, Little) =>
      BeValueIsReversedLe(bytes);
    case _ =>
  }

  /** Laying a value out in native layout and then swapping to `order` gives
      its bytes in `order`, whatever the native order is. */
  lemma SwappedToNeBytes(v: nat, n: nat, order: Endianness, native: Endianness)
    ensures Swapped(ToNeBytes(v, n, native), order, native) == ToBytes(v, n, order)
  {
    match (order, native)
    case (Little, Big) =>
      BeBytesIsReversedLe(v, n);
      ReverseReverse(LeBytes(v, n));
    case (Big, Little) =>
      BeBytesIsReversedLe(v, n);
    case _ =>
  }

  lemma FromBytesOfToBytes(v: nat, n: nat, order: Endianness)
    requires v < Pow256(n)
    ensures FromBytes(ToBytes(v, n, order), order) == v
  {
    match order
    case Little => LeValueOfLeBytes(v, n);
    case Big => BeValueOfBeBytes(v, n);
  }

  lemma ToBytesOfFromBytes(bytes: seq<byte>, order: Endianness)
    ensures ToBytes(FromBytes(bytes, order), |bytes|, order) == bytes
  {
    match order
    case Little => LeBytesOfLeValue(bytes);
    case Big => BeBytesOfBeValue(bytes);
  }

  /** `swap_inplace`: reverses `a` in place when `requested` differs from the
      native order (`slice::reverse` swaps the ends inwards). */
  method SwapInPlace(a: array<byte>, requested: Endianness)
    modifies a
    ensures a[..] == Swapped(old(a[..]), requested, SysEndianness)
  {
    if requested == SysEndianness {
      return;
    }
    var n := a.Length;
    var lo := 0;
    while lo < n / 2
      invariant 0 <= lo <= n / 2
      invariant forall i :: 0 <= i < lo ==> a[i] == old(a[n - 1 - i]) && a[n - 1 - i] == old(a[i])
      invariant forall i :: lo <= i < n - lo ==> a[i] == old(a[i])
    {
      a[lo], a[n - 1 - lo] := a[n - 1 - lo], a[lo];
      lo := lo + 1;
    }
  }
}
