/** Well-formed UTF-8, as `String::from_utf8` accepts it: the byte sequences
    of the grammar in section 4 of RFC 3629 (no overlong forms, no surrogates,
    nothing above U+10FFFF). */
module Utf8 {
  import opened StdIo

  predicate IsTail(b: byte) { 0x80 <= b <= 0xBF }

  /** The length of the well-formed character that `s` starts with, or 0 when
      `s` does not start with one. */
  function CharLength(s: seq<byte>): (n: nat)
    ensures n <= |s| && n <= 4
    ensures n == 1 <==> |s| > 0 && s[0] < 0x80
    ensures n > 1 ==> 0xC2 <= s[0] <= 0xF4 && forall i :: 1 <= i < n ==> IsTail(s[i])
  {
    if |s| == 0 then 0
    else
      var b0 := s[0];
      if b0 < 0x80 then 1
      else if 0xC2 <= b0 <= 0xDF then
        (if |s| >= 2 && IsTail(s[1]) then 2 else 0)
      else if b0 == 0xE0 then
        (if |s| >= 3 && 0xA0 <= s[1] <= 0xBF && IsTail(s[2]) then 3 else 0)
      else if 0xE1 <= b0 <= 0xEC || 0xEE <= b0 <= 0xEF then
        (if |s| >= 3 && IsTail(s[1]) && IsTail(s[2]) then 3 else 0)
      else if b0 == 0xED then
        (if |s| >= 3 && 0x80 <= s[1] <= 0x9F && IsTail(s[2]) then 3 else 0)
      else if b0 == 0xF0 then
        (if |s| >= 4 && 0x90 <= s[1] <= 0xBF && IsTail(s[2]) && IsTail(s[3]) then 4 else 0)
      else if 0xF1 <= b0 <= 0xF3 then
        (if |s| >= 4 && IsTail(s[1]) && IsTail(s[2]) && IsTail(s[3]) then 4 else 0)
      else if b0 == 0xF4 then
        (if |s| >= 4 && 0x80 <= s[1] <= 0x8F && IsTail(s[2]) && IsTail(s[3]) then 4 else 0)
      else 0
  }

  /** `s` is a sequence of well-formed characters. */
  predicate ValidUtf8(s: seq<byte>)
    decreases |s|
  {
    |s| == 0 || (CharLength(s) > 0 && ValidUtf8(s[CharLength(s)..]))
  }

  /** A character's length depends only on its own bytes. */
  lemma CharLengthOfPrefix(s: seq<byte>, t: seq<byte>)
    requires CharLength(s) > 0
    ensures CharLength(s + t) == CharLength(s)
  {
    assert forall i :: 0 <= i < |s| ==> (s + t)[i] == s[i];
  }

  /** Cutting bytes off after the first character keeps its length. */
  lemma CharLengthOfTruncated(s: seq<byte>, m: nat)
    requires 0 < CharLength(s) <= m <= |s|
    ensures CharLength(s[..m]) == CharLength(s)
  {
    assert forall i :: 0 <= i < m ==> s[..m][i] == s[i];
  }

  /** Text made only of ASCII bytes is well formed. */
  lemma {:induction false} AsciiIsValid(s: seq<byte>)
    requires forall i :: 0 <= i < |s| ==> s[i] < 0x80
    ensures ValidUtf8(s)
  {
    if |s| > 0 {
      AsciiIsValid(s[1..]);
    }
  }

  /** Joining two well-formed texts gives well-formed text. */
  lemma {:induction false} ConcatIsValid(s: seq<byte>, t: seq<byte>)
    requires ValidUtf8(s) && ValidUtf8(t)
    ensures ValidUtf8(s + t)
    decreases |s|
  {
    if |s| > 0 {
      var n := CharLength(s);
      CharLengthOfPrefix(s, t);
      ConcatIsValid(s[n..], t);
      assert (s + t)[n..] == s[n..] + t;
    } else {
      assert s + t == t;
    }
  }

  /** A zero byte is always a whole character, so the text before the first
      zero byte of well-formed text is itself well formed. */
  lemma {:induction false} PrefixBeforeZeroIsValid(s: seq<byte>, k: nat)
    requires ValidUtf8(s) && k < |s| && s[k] == 0
    ensures ValidUtf8(s[..k])
    decreases |s|
  {
    if k > 0 {
      var n := CharLength(s);
      assert n <= k;
      PrefixBeforeZeroIsValid(s[n..], k - n);
      assert s[n..][..k - n] == s[..k][n..];
      CharLengthOfTruncated(s, k);
    }
  }
}
