/** Stream positioning helpers: skipping bytes, aligning the cursor, and
    asking for the position and the stream's size. Positions are `u64`, and
    the arithmetic on them is checked. */
module BinaryUtils {
  import opened StdIo
  import opened Bytes

  /** `u64::checked_add`. */
  function CheckedAdd(a: u64, b: u64): (r: Option<u64>)
    ensures r.Some? <==> a + b <= U64_MAX
    ensures r.Some? ==> r.value == a + b
  {
    if a + b <= U64_MAX then Some(a + b) else None
  }

  /** The `length as i64` cast: the same 64 bits read as two's complement. */
  function WrapI64(length: u64): (r: i64)
    ensures (r - length) % Pow256(8) == 0
  {
    Pow256Values();
    ToSigned(length, 8)
  }

  predicate IsMultipleOf(m: int, a: int)
    requires a > 0
  {
    m % a == 0
  }

  /** `u64::checked_next_multiple_of`: the least multiple of `a` at or above
      `x`, or `None` when it does not fit in a `u64`. */
  function NextMultipleOf(x: u64, a: u64): (r: Option<u64>)
    requires a > 0
    ensures r.Some? ==> IsMultipleOf(r.value, a) && x <= r.value < x + a
    ensures IsMultipleOf(x, a) ==> r == Some(x)
  {
    if x % a == 0 then Some(x)
    else
      RoundUpIsMultiple(x, a);
      CheckedAdd(x, a - x % a)
  }

  /** Adding what `x` lacks to the next multiple of `a` gives a multiple. */
  lemma RoundUpIsMultiple(x: nat, a: nat)
    requires a > 0
    ensures IsMultipleOf(x + (a - x % a), a)
  {
    var q := x / a;
    assert x + (a - x % a) == a * (q + 1);
    MultipleModIsZero(a, q + 1);
  }

  lemma MultipleModIsZero(a: nat, k: int)
    requires a > 0
    ensures (a * k) % a == 0
  {
    var t := a * k;
    var q, r := t / a, t % a;
    assert r == a * (k - q);
    if k - q >= 1 {
      MultiplyMonotone(a, 1, k - q);
    } else if k - q <= -1 {
      MultiplyMonotone(a, k - q, -1);
    }
  }

  lemma MultipleIsProduct(m: int, a: nat)
    requires a > 0 && IsMultipleOf(m, a)
    ensures m == a * (m / a)
  {
  }

  /** A multiple of `a` that is at least `x` is at least `a * (x / a + 1)`
      when `x` itself is not a multiple. */
  lemma MultipleAboveIsAboveRoundUp(x: nat, a: nat, m: int)
    requires a > 0 && x % a != 0 && x <= m && IsMultipleOf(m, a)
    ensures x + (a - x % a) <= m
  {
    var q := x / a;
    MultipleIsProduct(m, a);
    if m / a <= q {
      MultiplyMonotone(a, m / a, q);
      assert false;
    }
    MultiplyMonotone(a, q + 1, m / a);
  }

  /** No multiple of `a` lies between `x` and the next multiple, so an
      existing multiple at or above `x` is at or above it. */
  lemma NextMultipleIsLeast(x: u64, a: u64, m: int)
    requires a > 0 && x <= m && IsMultipleOf(m, a)
    ensures NextMultipleOf(x, a).Some? ==> NextMultipleOf(x, a).value <= m
  {
    if x % a != 0 {
      MultipleAboveIsAboveRoundUp(x, a, m);
    }
  }

  /** `checked_next_multiple_of` gives `None` exactly when every `u64` at or
      above `x` fails to be a multiple of `a`. */
  lemma NextMultipleNone(x: u64, a: u64)
    requires a > 0
    ensures NextMultipleOf(x, a).None? <==> forall m: int :: x <= m <= U64_MAX ==> !IsMultipleOf(m, a)
  {
    if NextMultipleOf(x, a).None? {
      forall m: int | x <= m <= U64_MAX ensures !IsMultipleOf(m, a) {
        if IsMultipleOf(m, a) {
          MultipleAboveIsAboveRoundUp(x, a, m);
        }
      }
    } else {
      assert IsMultipleOf(NextMultipleOf(x, a).value, a);
    }
  }

  /** Aligning to 8: from 0 and from 8 the position stays, from 3 it moves
      to 8. */
  lemma AlignToEightExamples()
    ensures NextMultipleOf(0, 8) == Some(0)
    ensures NextMultipleOf(3, 8) == Some(8)
    ensures NextMultipleOf(8, 8) == Some(8)
  {
  }

  lemma MultiplyMonotone(a: nat, b: int, c: int)
    requires b <= c
    ensures a * b <= a * c
  {
  }

  /** `ignore(length)` on a 64-bit host: skips `length` bytes with a relative
      seek. A zero length does nothing; a position that would pass `u64::MAX`
      is `OutOfMemory`; a length above `i64::MAX` turns negative in the cast
      and the seek refuses it; a seek that stops short is `UnexpectedEof`
      and leaves the cursor where it stopped. */
  method Ignore(s: Stream, length: u64) returns (r: Result<()>)
    requires s.Valid()
    modifies s
    ensures s.Valid() && s.data == old(s.data)
    ensures length == 0 ==> r == Ok(()) && s.pos == old(s.pos)
    ensures length > 0 && s.failing ==> r == Err(Io) && s.pos == old(s.pos)
    ensures length > 0 && !s.failing ==>
      var target := old(s.pos) + length;
      if target > U64_MAX then r == Err(OutOfMemory) && s.pos == old(s.pos)
      else if length > I64_MAX then r == Err(InvalidInput) && s.pos == old(s.pos)
      else if target <= s.limit then r == Ok(()) && s.pos == target
      else r == Err(UnexpectedEof) && s.pos == s.limit
  {
    if length == 0 {
      return Ok(());
    }
    var current :- s.Seek(Current(0));
    var calculated: u64;
    match CheckedAdd(current, length) {
      case None => return Err(OutOfMemory);
      case Some(t) => calculated := t;
    }
    var reached :- s.Seek(Current(WrapI64(length)));
    if reached != calculated {
      return Err(UnexpectedEof);
    }
    return Ok(());
  }

  /** `tell`: the position, unchanged. */
  method Tell(s: Stream) returns (r: Result<u64>)
    requires s.Valid()
    modifies s
    ensures s.Valid() && s.data == old(s.data) && s.pos == old(s.pos)
    ensures r == if s.failing then Err(Io) else Ok(old(s.pos))
  {
    var p :- s.Seek(Current(0));
    return Ok(p);
  }

  /** `buffer_size`: the end offset, found by seeking to the end and then
      back to where the cursor was. */
  method BufferSize(s: Stream) returns (r: Result<u64>)
    requires s.Valid()
    modifies s
    ensures s.Valid() && s.data == old(s.data) && s.pos == old(s.pos)
    ensures r == if s.failing then Err(Io) else Ok(|old(s.data)|)
  {
    var current :- Tell(s);
    var size := s.Seek(End(0));
    if size.Err? {
      assert false;
    }
    var back := s.Seek(Start(current));
    if back.Err? {
      assert false;
    }
    return Ok(size.value);
  }

  /** `next_alignment(alignment)`: moves the cursor to the least multiple of
      `alignment` at or above it. A zero alignment is `InvalidInput` before
      any seek; a multiple beyond `u64::MAX` is `OutOfMemory`; a seek that
      stops short is `UnexpectedEof` and leaves the cursor where it
      stopped. */
  method NextAlignment(s: Stream, alignment: u64) returns (r: Result<()>)
    requires s.Valid()
    modifies s
    ensures s.Valid() && s.data == old(s.data)
    ensures alignment == 0 ==> r == Err(InvalidInput) && s.pos == old(s.pos)
    ensures alignment > 0 && s.failing ==> r == Err(Io) && s.pos == old(s.pos)
    ensures alignment > 0 && !s.failing ==>
      match NextMultipleOf(old(s.pos), alignment)
      case None => r == Err(OutOfMemory) && s.pos == old(s.pos)
      case Some(target) =>
        if target <= s.limit then r == Ok(()) && s.pos == target
        else r == Err(UnexpectedEof) && s.pos == s.limit
  {
    if alignment == 0 {
      return Err(InvalidInput);
    }
    var current :- s.Seek(Current(0));
    var calculated: u64;
    match NextMultipleOf(current, alignment) {
      case None => return Err(OutOfMemory);
      case Some(t) => calculated := t;
    }
    var reached := s.Seek(Start(calculated));
    if reached.Err? {
      assert false;
    }
    if reached.value != calculated {
      return Err(UnexpectedEof);
    }
    return Ok(());
  }
}
