/**
 * Bytes and the UTF-8 encoding form of RFC 3629. Rust's `str` and `String`
 * are byte sequences that hold valid UTF-8; the model keeps them as byte
 * sequences and states validity where a property depends on it.
 */
module Utf8 {

  /** Rust's `u8`. */
  type u8 = b: int | 0 <= b < 0x100

  /** A trailing byte `10xxxxxx` of a multi-byte sequence (RFC 3629 section 3). */
  predicate IsContinuation(b: u8) {
    0x80 <= b < 0xC0
  }

  /** The encoding of one code point, section 3 of RFC 3629. */
  function EncodeChar(c: char): (bytes: seq<u8>)
    ensures 1 <= |bytes| <= 4
    ensures |bytes| == 1 <==> (c as int) < 0x80
    ensures forall j :: 1 <= j < |bytes| ==> IsContinuation(bytes[j])
  {
    var cp := c as int;
    if cp < 0x80 then [cp]
    else if cp < 0x800 then [0xC0 + cp / 0x40, 0x80 + cp % 0x40]
    else if cp < 0x1_0000 then [0xE0 + cp / 0x1000, 0x80 + (cp / 0x40) % 0x40, 0x80 + cp % 0x40]
    else [0xF0 + cp / 0x4_0000, 0x80 + (cp / 0x1000) % 0x40, 0x80 + (cp / 0x40) % 0x40, 0x80 + cp % 0x40]
  }

  /** The UTF-8 encoding of a string; `str::len` is the length of this sequence. */
  function Encode(s: string): (bytes: seq<u8>)
    ensures |bytes| >= |s|
  {
    if s == [] then [] else EncodeChar(s[0]) + Encode(s[1..])
  }

  /**
   * The length of the well-formed UTF-8 character at the head of `s`, by
   * the syntax of section 4 of RFC 3629, or 0 when `s` does not start with
   * one.
   */
  function HeadWidth(s: seq<u8>): (w: nat)
    requires s != []
    ensures w <= |s| && w <= 4
    ensures forall j :: 1 <= j < w ==> IsContinuation(s[j])
  {
    var b := s[0];
    if b < 0x80 then 1
    else if 0xC2 <= b <= 0xDF then
      if 2 <= |s| && IsContinuation(s[1]) then 2 else 0
    else if 0xE0 <= b <= 0xEF then
      var lo := if b == 0xE0 then 0xA0 else 0x80;
      var hi := if b == 0xED then 0x9F else 0xBF;
      if 3 <= |s| && lo <= s[1] <= hi && IsContinuation(s[2]) then 3 else 0
    else if 0xF0 <= b <= 0xF4 then
      var lo := if b == 0xF0 then 0x90 else 0x80;
      var hi := if b == 0xF4 then 0x8F else 0xBF;
      if 4 <= |s| && lo <= s[1] <= hi && IsContinuation(s[2]) && IsContinuation(s[3]) then 4 else 0
    else 0
  }

  /** `s` is a sequence of well-formed UTF-8 characters (RFC 3629 section 4). */
  predicate Valid(s: seq<u8>)
    decreases |s|
  {
    s == [] || (HeadWidth(s) > 0 && Valid(s[HeadWidth(s)..]))
  }

  /** Rust's `str::is_char_boundary`: the start or end of the string, or a
      byte that is not a continuation byte. */
  predicate IsCharBoundary(s: seq<u8>, i: nat) {
    i == 0 || i == |s| || (i < |s| && !IsContinuation(s[i]))
  }

  /** The encoding of one code point is one well-formed character. */
  lemma EncodeCharWellFormed(c: char, rest: seq<u8>)
    ensures HeadWidth(EncodeChar(c) + rest) == |EncodeChar(c)|
  {
  }

  /** Encoding always yields valid UTF-8. */
  lemma {:induction false} EncodeValid(s: string)
    ensures Valid(Encode(s))
  {
    if s != [] {
      var head := EncodeChar(s[0]);
      EncodeCharWellFormed(s[0], Encode(s[1..]));
      assert (head + Encode(s[1..]))[|head|..] == Encode(s[1..]);
      EncodeValid(s[1..]);
    }
  }

  /** Bytes below 0x80 are one-byte characters, so an ASCII text is valid. */
  lemma {:induction false} AsciiValid(s: seq<u8>)
    requires forall i :: 0 <= i < |s| ==> s[i] < 0x80
    ensures Valid(s)
    decreases |s|
  {
    if s != [] {
      AsciiValid(s[1..]);
    }
  }
}
