/** Bytes, the few ASCII constants the object format uses, and UTF-8 well-formedness. */
module Bytes {

  newtype byte = x: int | 0 <= x < 256

  const NUL: byte := 0x00
  const SPACE: byte := 0x20
  const PLUS: byte := 0x2B
  const SLASH: byte := 0x2F
  const ZERO: byte := 0x30

  predicate IsAscii(b: byte) { b < 0x80 }

  predicate IsDigit(b: byte) { 0x30 <= b <= 0x39 }

  /** A byte of the form 10xxxxxx, which never starts a UTF-8 character. */
  predicate IsContinuation(b: byte) { 0x80 <= b <= 0xBF }

  predicate AllAscii(s: seq<byte>) { forall i :: 0 <= i < |s| ==> IsAscii(s[i]) }

  /**
   * Well-formed UTF-8 as Table 3-7 of the Unicode Standard defines it: no
   * overlong forms, no surrogates, nothing above U+10FFFF. This is the check
   * Rust's `str::from_utf8` (and so `CStr::to_str`) applies.
   */
  predicate ValidUtf8(s: seq<byte>)
    ensures ValidUtf8(s) && 0 < |s| ==> s[0] < 0x80 || 0xC2 <= s[0] <= 0xF4
    decreases |s|
  {
    if |s| == 0 then true
    else if s[0] < 0x80 then ValidUtf8(s[1..])
    else if 0xC2 <= s[0] <= 0xDF then
      2 <= |s| && IsContinuation(s[1]) && ValidUtf8(s[2..])
    else if s[0] == 0xE0 then
      3 <= |s| && 0xA0 <= s[1] <= 0xBF && IsContinuation(s[2]) && ValidUtf8(s[3..])
    else if 0xE1 <= s[0] <= 0xEC || 0xEE <= s[0] <= 0xEF then
      3 <= |s| && IsContinuation(s[1]) && IsContinuation(s[2]) && ValidUtf8(s[3..])
    else if s[0] == 0xED then
      3 <= |s| && 0x80 <= s[1] <= 0x9F && IsContinuation(s[2]) && ValidUtf8(s[3..])
    else if s[0] == 0xF0 then
      4 <= |s| && 0x90 <= s[1] <= 0xBF && IsContinuation(s[2]) && IsContinuation(s[3])
      && ValidUtf8(s[4..])
    else if 0xF1 <= s[0] <= 0xF3 then
      4 <= |s| && IsContinuation(s[1]) && IsContinuation(s[2]) && IsContinuation(s[3])
      && ValidUtf8(s[4..])
    else if s[0] == 0xF4 then
      4 <= |s| && 0x80 <= s[1] <= 0x8F && IsContinuation(s[2]) && IsContinuation(s[3])
      && ValidUtf8(s[4..])
    else false
  }

  /**
   * The three ways a byte run can look like UTF-8 and still be refused: an
   * overlong form ("C0 80" for U+0000), an encoded surrogate ("ED A0 80" for
   * U+D800), and a code point above U+10FFFF ("F4 90 80 80").
   */
  lemma Utf8Refusals()
    ensures !ValidUtf8([0xC0, 0x80])
    ensures !ValidUtf8([0xE0, 0x80, 0x80])
    ensures !ValidUtf8([0xED, 0xA0, 0x80])
    ensures !ValidUtf8([0xF4, 0x90, 0x80, 0x80])
    ensures ValidUtf8([0xED, 0x9F, 0xBF]) && ValidUtf8([0xF4, 0x8F, 0xBF, 0xBF])
  {
    var a: seq<byte> := [0xED, 0x9F, 0xBF];
    assert ValidUtf8(a[3..]);
    var b: seq<byte> := [0xF4, 0x8F, 0xBF, 0xBF];
    assert ValidUtf8(b[4..]);
  }

  /** Putting ASCII text in front of well-formed UTF-8 keeps it well-formed. */
  lemma {:induction false} AsciiPrefixUtf8(a: seq<byte>, b: seq<byte>)
    requires AllAscii(a) && ValidUtf8(b)
    ensures ValidUtf8(a + b)
  {
    if |a| == 0 {
      assert a + b == b;
    } else {
      AsciiPrefixUtf8(a[1..], b);
      assert (a + b)[0] == a[0];
      assert (a + b)[1..] == a[1..] + b;
    }
  }

  /** Pure ASCII text is well-formed UTF-8. */
  lemma AsciiIsUtf8(s: seq<byte>)
    requires AllAscii(s)
    ensures ValidUtf8(s)
  {
    AsciiPrefixUtf8(s, []);
    assert s + [] == s;
  }
}
