/** Byte-sequence arithmetic of Rust's integer primitives: `from_le_bytes`,
    `from_be_bytes`, `to_le_bytes`, `to_be_bytes`, the `as` casts between
    signed and unsigned types of one width, and `slice::reverse`. */
module Bytes {
  import opened StdIo

  /** `slice::reverse`, as a value. */
  function Reverse(s: seq<byte>): (r: seq<byte>)
    ensures |r| == |s|
    ensures forall i :: 0 <= i < |s| ==> r[i] == s[|s| - 1 - i]
  {
    if s == [] then [] else Reverse(s[1..]) + [s[0]]
  }

  lemma ReverseReverse(s: seq<byte>)
    ensures Reverse(Reverse(s)) == s
  {
    assert forall i :: 0 <= i < |s| ==> Reverse(Reverse(s))[i] == s[i];
  }

  /** 256 to the power `n`: the number of values an `n`-byte integer holds. */
  function Pow256(n: nat): (r: nat)
    ensures r >= 1
  {
    if n == 0 then 1 else 256 * Pow256(n - 1)
  }

  lemma Pow256Values()
    ensures Pow256(1) == 0x100
    ensures Pow256(2) == 0x1_0000
    ensures Pow256(4) == 0x1_0000_0000
    ensures Pow256(8) == 0x1_0000_0000_0000_0000
  {
    assert Pow256(3) == 0x100_0000 by { assert Pow256(2) == 0x1_0000; }
    assert Pow256(7) == 0x100_0000_0000_0000 by {
      assert Pow256(6) == 0x1_0000_0000_0000 by { assert Pow256(5) == 0x100_0000_0000; }
    }
  }

  /** The unsigned value of `b` read least-significant byte first. */
  function LeValue(b: seq<byte>): nat
  {
    if b == [] then 0 else b[0] + 256 * LeValue(b[1..])
  }

  /** The unsigned value of `b` read most-significant byte first. */
  function BeValue(b: seq<byte>): nat
  {
    if b == [] then 0 else 256 * BeValue(b[..|b| - 1]) + b[|b| - 1]
  }

  /** The `n` bytes of `v`, least-significant first. */
  function LeBytes(v: nat, n: nat): (r: seq<byte>)
    ensures |r| == n
  {
    if n == 0 then [] else [v % 256] + LeBytes(v / 256, n - 1)
  }

  /** The `n` bytes of `v`, most-significant first. */
  function BeBytes(v: nat, n: nat): (r: seq<byte>)
    ensures |r| == n
  {
    if n == 0 then [] else BeBytes(v / 256, n - 1) + [v % 256]
  }

  lemma {:induction false} LeValueBound(b: seq<byte>)
    ensures LeValue(b) < Pow256(|b|)
  {
    if b != [] {
      LeValueBound(b[1..]);
    }
  }

  /** Reading a number most-significant first is reading the reversed bytes
      least-significant first. */
  lemma {:induction false} BeValueIsReversedLe(b: seq<byte>)
    ensures BeValue(b) == LeValue(Reverse(b))
  {
    if b != [] {
      var front := b[..|b| - 1];
      BeValueIsReversedLe(front);
      assert Reverse(b)[1..] == Reverse(front);
    }
  }

  lemma BeValueBound(b: seq<byte>)
    ensures BeValue(b) < Pow256(|b|)
  {
    BeValueIsReversedLe(b);
    LeValueBound(Reverse(b));
  }

  /** The big-endian bytes of a value are its little-endian bytes reversed. */
  lemma {:induction false} BeBytesIsReversedLe(v: nat, n: nat)
    ensures BeBytes(v, n) == Reverse(LeBytes(v, n))
  {
    if n > 0 {
      var rest := LeBytes(v / 256, n - 1);
      BeBytesIsReversedLe(v / 256, n - 1);
      var le := LeBytes(v, n);
      assert le[1..] == rest && le[0] == v % 256;
      calc {
        Reverse(le);
        Reverse(le[1..]) + [le[0]];
        Reverse(rest) + [v % 256];
        BeBytes(v / 256, n - 1) + [v % 256];
      }
    }
  }

  /** Encoding then decoding gives the value back, for every value that fits. */
  lemma {:induction false} LeValueOfLeBytes(v: nat, n: nat)
    requires v < Pow256(n)
    ensures LeValue(LeBytes(v, n)) == v
  {
    if n > 0 {
      LeValueOfLeBytes(v / 256, n - 1);
      assert LeBytes(v, n)[1..] == LeBytes(v / 256, n - 1);
    }
  }

  /** Decoding then encoding gives the bytes back: every byte pattern is the
      encoding of exactly one value. */
  lemma {:induction false} LeBytesOfLeValue(b: seq<byte>)
    ensures LeBytes(LeValue(b), |b|) == b
  {
    if b != [] {
      LeBytesOfLeValue(b[1..]);
      LeValueBound(b[1..]);
      var v := LeValue(b);
      assert v % 256 == b[0] && v / 256 == LeValue(b[1..]);
    }
  }

  lemma BeValueOfBeBytes(v: nat, n: nat)
    requires v < Pow256(n)
    ensures BeValue(BeBytes(v, n)) == v
  {
    BeBytesIsReversedLe(v, n);
    BeValueIsReversedLe(BeBytes(v, n));
    ReverseReverse(LeBytes(v, n));
    LeValueOfLeBytes(v, n);
  }

  lemma BeBytesOfBeValue(b: seq<byte>)
    ensures BeBytes(BeValue(b), |b|) == b
  {
    BeValueIsReversedLe(b);
    LeBytesOfLeValue(Reverse(b));
    BeBytesIsReversedLe(BeValue(b), |b|);
    ReverseReverse(b);
  }

  /** Zero bytes at the most-significant end do not change a little-endian
      value. */
  lemma {:induction false} LeValueZeroExtended(b: seq<byte>, n: nat)
    ensures LeValue(b + Zeros(n)) == LeValue(b)
  {
    if b == [] {
      AllZerosValue(Zeros(n));
      assert b + Zeros(n) == Zeros(n);
    } else {
      LeValueZeroExtended(b[1..], n);
      assert (b + Zeros(n))[1..] == b[1..] + Zeros(n);
    }
  }

  lemma {:induction false} AllZerosValue(z: seq<byte>)
    requires forall i :: 0 <= i < |z| ==> z[i] == 0
    ensures LeValue(z) == 0
  {
    if z != [] {
      AllZerosValue(z[1..]);
    }
  }

  /** Zero bytes at the most-significant end do not change a big-endian value. */
  /** Zero bytes after a big-endian number shift it up by a byte each. */
  lemma {:induction false} BeValueZeroPadded(b: seq<byte>, n: nat)
    ensures BeValue(b + Zeros(n)) == BeValue(b) * Pow256(n)
  {
    if n == 0 {
      assert b + Zeros(0) == b;
    } else {
      var padded := b + Zeros(n);
      assert padded[..|padded| - 1] == b + Zeros(n - 1);
      BeValueZeroPadded(b, n - 1);
      calc {
        BeValue(padded);
        256 * BeValue(b + Zeros(n - 1)) + padded[|padded| - 1];
        256 * (BeValue(b) * Pow256(n - 1));
        BeValue(b) * (256 * Pow256(n - 1));
      }
    }
  }

  lemma BeValueZeroExtended(b: seq<byte>, n: nat)
    ensures BeValue(Zeros(n) + b) == BeValue(b)
  {
    var z := Zeros(n);
    assert Reverse(z + b) == Reverse(b) + z by {
      assert forall i :: 0 <= i < |z + b| ==> Reverse(z + b)[i] == (Reverse(b) + z)[i];
    }
    BeValueIsReversedLe(z + b);
    BeValueIsReversedLe(b);
    assert Reverse(b) + z == Reverse(b) + Zeros(n);
    LeValueZeroExtended(Reverse(b), n);
  }

  /** Half the range of an `n`-byte integer: the magnitude of the least
      signed value. */
  function Half(n: nat): (h: int)
    requires n > 0
    ensures 2 * h == Pow256(n)
  {
    128 * Pow256(n - 1)
  }

  /** The `as` cast from an `n`-byte unsigned value to the signed type of the
      same width: two's complement reinterpretation. The result is the one
      value of the signed range that agrees with `u` modulo 256^n, and it is
      negative exactly when the top bit of `u` is set. */
  function ToSigned(u: nat, n: nat): (s: int)
    requires n > 0 && u < Pow256(n)
    ensures -Half(n) <= s < Half(n)
    ensures s == u || s + Pow256(n) == u
    ensures s < 0 <==> u >= Half(n)
  {
    if u < Half(n) then u else u - Pow256(n)
  }

  /** The `as` cast from an `n`-byte signed value to the unsigned type of the
      same width: its two's complement bit pattern. */
  function FromSigned(s: int, n: nat): (u: nat)
    requires n > 0 && -Half(n) <= s < Half(n)
    ensures u < Pow256(n)
    ensures u == s || u == s + Pow256(n)
  {
    if s < 0 then s + Pow256(n) else s
  }

  lemma SignedRoundTrip(s: int, n: nat)
    requires n > 0 && -Half(n) <= s < Half(n)
    ensures ToSigned(FromSigned(s, n), n) == s
  {
  }

  lemma UnsignedRoundTrip(u: nat, n: nat)
    requires n > 0 && u < Pow256(n)
    ensures FromSigned(ToSigned(u, n), n) == u
  {
  }
}
