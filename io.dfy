/** The stream collaborator of the codec: Rust's `std::io` error kinds and an
    in-memory seekable byte stream in the manner of `std::io::Cursor`. */
module StdIo {

  type byte = b: int | 0 <= b < 0x100

  const U64_MAX: int := 0xFFFF_FFFF_FFFF_FFFF
  const I64_MIN: int := -0x8000_0000_0000_0000
  const I64_MAX: int := 0x7FFF_FFFF_FFFF_FFFF

  type u64 = x: int | 0 <= x <= U64_MAX
  type i64 = x: int | I64_MIN <= x <= I64_MAX

  function Min(a: int, b: int): int { if a <= b then a else b }
  function Max(a: int, b: int): int { if a <= b then b else a }

  /** The error kinds the codec produces; `Io` stands for any failure the
      underlying stream itself reports. */
  datatype ErrorKind = UnexpectedEof | InvalidData | InvalidInput | OutOfMemory | Io

  /** `io::Result<T>`, usable with `:-` in the way Rust uses `?`. */
  datatype Result<T> = Ok(value: T) | Err(error: ErrorKind) {
    predicate IsFailure() { Err? }

    function PropagateFailure<U>(): Result<U>
      requires Err?
    {
      Err(error)
    }

    function Extract(): T
      requires Ok?
    {
      value
    }
  }

  datatype Option<T> = None | Some(value: T)

  /** `std::io::SeekFrom`. */
  datatype SeekFrom = Start(offset: u64) | End(delta: i64) | Current(delta: i64)

  /** A sequence of `n` zero bytes. */
  function Zeros(n: nat): (r: seq<byte>)
    ensures |r| == n && forall i :: 0 <= i < n ==> r[i] == 0
  {
    seq(n, _ => 0)
  }

  /** The contents after writing `chunk` at offset `at`: a gap between the old
      end and `at` is filled with zeros, the bytes under `chunk` are replaced and
      every other byte is kept. */
  function Overwrite(data: seq<byte>, at: nat, chunk: seq<byte>): (r: seq<byte>)
    ensures |r| == Max(|data|, at + |chunk|)
    ensures forall i :: 0 <= i < |r| ==>
      r[i] == (if at <= i < at + |chunk| then chunk[i - at] else if i < |data| then data[i] else 0)
  {
    var padded := data + Zeros(Max(0, at + |chunk| - |data|));
    padded[..at] + chunk + padded[at + |chunk|..]
  }

  /** Writing two chunks one after the other is writing their concatenation. */
  lemma OverwriteTwice(data: seq<byte>, at: nat, a: seq<byte>, b: seq<byte>)
    ensures Overwrite(Overwrite(data, at, a), at + |a|, b) == Overwrite(data, at, a + b)
  {
    var lhs, rhs := Overwrite(Overwrite(data, at, a), at + |a|, b), Overwrite(data, at, a + b);
    assert |lhs| == |rhs|;
    forall i | 0 <= i < |lhs| ensures lhs[i] == rhs[i] {
      if at <= i < at + |a| {
        assert (a + b)[i - at] == a[i - at];
      } else if at + |a| <= i < at + |a| + |b| {
        assert (a + b)[i - at] == b[i - at - |a|];
      }
    }
  }

  /** An in-memory stream over `data` with a cursor `pos`, like Rust's
      `Cursor<Vec<u8>>`, on a medium that holds at most `limit` bytes: a seek
      past `limit` stops at `limit` and a write is cut short there. A stream
      built with `failing` set reports an I/O error on every call. */
  class Stream {
    var data: seq<byte>
    var pos: nat
    const limit: nat
    const failing: bool

    ghost predicate Valid()
      reads this
    {
      |data| <= limit && pos <= limit && limit <= U64_MAX
    }

    constructor (contents: seq<byte>, limit: nat, failing: bool)
      requires |contents| <= limit <= U64_MAX
      ensures Valid()
      ensures data == contents && pos == 0 && this.limit == limit && this.failing == failing
    {
      data := contents;
      pos := 0;
      this.limit := limit;
      this.failing := failing;
    }

    /** The bytes a read can still obtain. */
    function Unread(): (r: seq<byte>)
      reads this
      ensures |r| == if pos <= |data| then |data| - pos else 0
    {
      if pos <= |data| then data[pos..] else []
    }

    /** How many bytes a write can still place before `limit`. */
    function Room(): int
      reads this
    {
      limit - pos
    }

    /** `Read::read` into `buf[lo..hi]`: copies as many unread bytes as fit to
        the front of that slice, leaves the rest of `buf` alone and returns how
        many it copied. */
    method Read(buf: array<byte>, lo: nat, hi: nat) returns (r: Result<nat>)
      requires Valid() && lo <= hi <= buf.Length
      modifies this, buf
      ensures Valid() && data == old(data)
      ensures failing ==> r == Err(Io) && pos == old(pos) && buf[..] == old(buf[..])
      ensures !failing ==>
        && r == Ok(Min(hi - lo, |old(Unread())|))
        && pos == old(pos) + r.value
        && buf[..] == old(buf[..lo]) + old(Unread())[..r.value] + old(buf[lo + r.value..])
    {
      if failing {
        return Err(Io);
      }
      var k := Min(hi - lo, |Unread()|);
      ghost var before := buf[..];
      ghost var unread := Unread();
      forall i | lo <= i < lo + k {
        buf[i] := data[pos + i - lo];
      }
      assert buf[..] == before[..lo] + unread[..k] + before[lo + k..] by {
        forall i | 0 <= i < buf.Length
          ensures buf[i] == (before[..lo] + unread[..k] + before[lo + k..])[i]
        {
          if lo <= i < lo + k {
            assert unread[i - lo] == data[pos + i - lo];
          }
        }
      }
      pos := pos + k;
      r := Ok(k);
    }

    /** `Write::write`: places as much of `bytes` as fits below `limit` at the
        cursor and returns how many bytes it placed. */
    method Write(bytes: seq<byte>) returns (r: Result<nat>)
      requires Valid()
      modifies this
      ensures Valid()
      ensures failing ==> r == Err(Io) && data == old(data) && pos == old(pos)
      ensures !failing ==>
        && r == Ok(Min(|bytes|, old(Room())))
        && pos == old(pos) + r.value
        && data == Overwrite(old(data), old(pos), bytes[..r.value])
    {
      if failing {
        return Err(Io);
      }
      var k := Min(|bytes|, Room());
      data := Overwrite(data, pos, bytes[..k]);
      pos := pos + k;
      r := Ok(k);
    }

    /** `Seek::seek`: a target below zero or above `u64::MAX` is refused with
        `InvalidInput` (as `Cursor` does); any other target is reached, or
        `limit` when the target lies beyond it. Returns the new position. */
    method Seek(from: SeekFrom) returns (r: Result<nat>)
      requires Valid()
      modifies this
      ensures Valid() && data == old(data)
      ensures failing ==> r == Err(Io) && pos == old(pos)
      ensures !failing ==>
        var target := SeekTarget(from, |old(data)|, old(pos));
        if target < 0 || target > U64_MAX then r == Err(InvalidInput) && pos == old(pos)
        else r == Ok(Min(target, limit)) && pos == r.value
    {
      if failing {
        return Err(Io);
      }
      var target := SeekTarget(from, |data|, pos);
      if target < 0 || target > U64_MAX {
        return Err(InvalidInput);
      }
      pos := Min(target, limit);
      r := Ok(pos);
    }
  }

  /** The offset a seek aims at, before any range check. */
  function SeekTarget(from: SeekFrom, length: nat, pos: nat): int
  {
    match from
    case Start(offset) => offset
    case End(delta) => length + delta
    case Current(delta) => pos + delta
  }
}
