/**
 * Characters as the Rust utilities see them: a `char` is a Unicode scalar
 * value, `&str` stores it in UTF-8, and the character classes used by the
 * utilities (`to_ascii_lowercase`, `is_whitespace`, `is_alphanumeric`).
 */
module Unicode {
  import opened FixedWidth

  predicate IsAsciiLower(c: char) { 'a' <= c <= 'z' }

  predicate IsAsciiUpper(c: char) { 'A' <= c <= 'Z' }

  predicate IsAsciiLetter(c: char) { IsAsciiLower(c) || IsAsciiUpper(c) }

  predicate IsAsciiDigit(c: char) { '0' <= c <= '9' }

  predicate IsAscii(c: char) { c as int < 0x80 }

  /** What `char::is_alphanumeric` answers on the ASCII range. */
  predicate IsAsciiAlphanumeric(c: char) { IsAsciiLetter(c) || IsAsciiDigit(c) }

  /**
   * `char::is_alphanumeric` consults the Unicode Alphabetic and Numeric
   * tables; the model takes it as a parameter `isAlnum`. This predicate is
   * what is known of it: on ASCII it is exactly letters and digits.
   */
  ghost predicate AgreesOnAscii(isAlnum: char -> bool)
  {
    forall c: char :: IsAscii(c) ==> (isAlnum(c) <==> IsAsciiAlphanumeric(c))
  }

  /** `char::to_ascii_lowercase`: 'A'..'Z' become 'a'..'z', every other
      character is kept. */
  function ToAsciiLower(c: char): (r: char)
    ensures !IsAsciiUpper(r)
    ensures IsAscii(r) == IsAscii(c)
    ensures IsAsciiUpper(c) ==> IsAsciiLower(r) && r as int - 'a' as int == c as int - 'A' as int
    ensures !IsAsciiUpper(c) ==> r == c
  {
    if IsAsciiUpper(c) then (c as int + 32) as char else c
  }

  /** Two characters that are equal up to the case of ASCII letters are equal
      or are both ASCII letters. */
  lemma SameAsciiLowerCases(x: char, y: char)
    requires ToAsciiLower(x) == ToAsciiLower(y)
    ensures x == y || (IsAsciiLetter(x) && IsAsciiLetter(y))
  {
  }

  /**
   * `char::is_whitespace`: the Unicode White_Space property (PropList.txt of
   * the Unicode Character Database), 25 code points.
   */
  function IsWhitespace(c: char): (b: bool)
    ensures IsAscii(c) ==> (b <==> c in " \t\n\r\U{0B}\U{0C}")
    ensures b ==> !IsAsciiAlphanumeric(c)
  {
    var n := c as int;
    (0x09 <= n <= 0x0D) || n == 0x20 || n == 0x85 || n == 0xA0 || n == 0x1680
    || (0x2000 <= n <= 0x200A) || n == 0x2028 || n == 0x2029 || n == 0x202F
    || n == 0x205F || n == 0x3000
  }

  /** Number of bytes UTF-8 uses for `c` (`char::len_utf8`). */
  function ByteLen(c: char): nat
  {
    var n := c as int;
    if n < 0x80 then 1 else if n < 0x800 then 2 else if n < 0x1_0000 then 3 else 4
  }

  /** The UTF-8 encoding of one scalar value. */
  function EncodeChar(c: char): (bs: seq<byte>)
    ensures |bs| == ByteLen(c)
    ensures |bs| == 1 <==> IsAscii(c)
    ensures IsAscii(c) ==> bs[0] as int == c as int
    ensures forall i :: 1 <= i < |bs| ==> 0x80 <= bs[i] < 0xC0
  {
    var n := c as int;
    if n < 0x80 then [n as byte]
    else if n < 0x800 then [(0xC0 + n / 0x40) as byte, (0x80 + n % 0x40) as byte]
    else if n < 0x1_0000 then
      [(0xE0 + n / 0x1000) as byte, (0x80 + n / 0x40 % 0x40) as byte, (0x80 + n % 0x40) as byte]
    else
      [(0xF0 + n / 0x4_0000) as byte, (0x80 + n / 0x1000 % 0x40) as byte,
       (0x80 + n / 0x40 % 0x40) as byte, (0x80 + n % 0x40) as byte]
  }

  /** Reads back the scalar value from the bytes of one encoded character. */
  function DecodeScalar(bs: seq<byte>): int
    requires 1 <= |bs| <= 4
  {
    if |bs| == 1 then bs[0] as int
    else if |bs| == 2 then (bs[0] as int - 0xC0) * 0x40 + (bs[1] as int - 0x80)
    else if |bs| == 3 then
      (bs[0] as int - 0xE0) * 0x1000 + (bs[1] as int - 0x80) * 0x40 + (bs[2] as int - 0x80)
    else
      (bs[0] as int - 0xF0) * 0x4_0000 + (bs[1] as int - 0x80) * 0x1000
      + (bs[2] as int - 0x80) * 0x40 + (bs[3] as int - 0x80)
  }

  lemma SplitBase64(n: nat)
    ensures n == n / 0x40 * 0x40 + n % 0x40
    ensures n / 0x40 / 0x40 == n / 0x1000
    ensures n / 0x1000 / 0x40 == n / 0x4_0000
  {
  }

  /** The encoding is lossless: decoding the bytes of `c` gives `c` back. */
  lemma {:induction false} DecodeEncodeChar(c: char)
    ensures DecodeScalar(EncodeChar(c)) == c as int
  {
    var n := c as int;
    SplitBase64(n);
    SplitBase64(n / 0x40);
    SplitBase64(n / 0x1000);
  }

  /** The bytes of a string: the encodings of its characters, in order (`str::bytes`). */
  function Encode(s: string): (bs: seq<byte>)
    ensures |bs| == Utf8Len(s)
  {
    if s == [] then [] else EncodeChar(s[0]) + Encode(s[1..])
  }

  /** Byte length of a string (`str::len`). */
  function Utf8Len(s: string): (n: nat)
    ensures |s| <= n <= 4 * |s|
  {
    if s == [] then 0 else ByteLen(s[0]) + Utf8Len(s[1..])
  }

  lemma {:induction false} EncodeAppend(s: string, t: string)
    ensures Encode(s + t) == Encode(s) + Encode(t)
  {
    if s == [] {
      assert s + t == t;
    } else {
      assert (s + t)[1..] == s[1..] + t;
      EncodeAppend(s[1..], t);
    }
  }

  /** For ASCII text, bytes and characters coincide. */
  lemma {:induction false} EncodeAscii(s: string)
    requires forall i :: 0 <= i < |s| ==> IsAscii(s[i])
    ensures |Encode(s)| == Utf8Len(s) == |s|
    ensures forall i :: 0 <= i < |s| ==> Encode(s)[i] as int == s[i] as int
  {
    if s != [] {
      EncodeAscii(s[1..]);
      assert Encode(s) == [s[0] as int as byte] + Encode(s[1..]);
    }
  }
}
