/**
 * Byte-level encodings the widget borrows from the browser: `TextEncoder`
 * (UTF-8) and `encodeURIComponent` (UTF-8 then percent-encoding, section
 * 2.1 of RFC 3986 with upper-case hexadecimal digits).
 */
module Encoding {

  type byte = b: int | 0 <= b < 256

  /** The UTF-8 encoding of one Unicode scalar value (section 3 of RFC 3629). */
  function Utf8Char(c: char): (bs: seq<byte>)
    ensures 1 <= |bs| <= 4
    ensures |bs| == 1 <==> c as int < 0x80
    ensures |bs| == 1 ==> bs[0] == c as int
    ensures |bs| > 1 ==> forall k :: 0 <= k < |bs| ==> bs[k] >= 0x80
  {
    var n := c as int;
    if n < 0x80 then [n]
    else if n < 0x800 then [0xC0 + n / 64, 0x80 + n % 64]
    else if n < 0x10000 then [0xE0 + n / 4096, 0x80 + n / 64 % 64, 0x80 + n % 64]
    else [0xF0 + n / 262144, 0x80 + n / 4096 % 64, 0x80 + n / 64 % 64, 0x80 + n % 64]
  }

  /** `new TextEncoder().encode(s)`: the UTF-8 bytes of `s`, character after character. */
  function Utf8(s: string): (bs: seq<byte>)
    ensures |bs| >= |s|
  {
    if s == [] then [] else Utf8Char(s[0]) + Utf8(s[1..])
  }

  predicate IsAscii(s: string)
  {
    forall i :: 0 <= i < |s| ==> s[i] as int < 0x80
  }

  /** An ASCII string encodes to one byte per character, that byte being the character's code. */
  lemma {:induction false} Utf8OfAscii(s: string)
    requires IsAscii(s)
    ensures |Utf8(s)| == |s|
    ensures forall i :: 0 <= i < |s| ==> Utf8(s)[i] == s[i] as int
  {
    if s != [] {
      assert IsAscii(s[1..]) by {
        forall i | 0 <= i < |s[1..]| ensures s[1..][i] as int < 0x80 {
          assert s[1..][i] == s[i + 1];
        }
      }
      Utf8OfAscii(s[1..]);
    }
  }

  /** The characters `encodeURIComponent` leaves as they are. */
  predicate IsUriComponentSafe(c: char)
  {
    ('A' <= c <= 'Z') || ('a' <= c <= 'z') || ('0' <= c <= '9') ||
    c == '-' || c == '_' || c == '.' || c == '!' || c == '~' || c == '*' || c == '\'' || c == '(' || c == ')'
  }

  /** An upper-case hexadecimal digit. */
  function HexDigit(n: int): (c: char)
    requires 0 <= n < 16
    ensures ('0' <= c <= '9') || ('A' <= c <= 'F')
  {
    if n < 10 then ('0' as int + n) as char else ('A' as int + n - 10) as char
  }

  /** `%XY` for one byte. */
  function PercentByte(b: byte): (r: string)
    ensures |r| == 3 && r[0] == '%'
  {
    ['%', HexDigit(b / 16), HexDigit(b % 16)]
  }

  function PercentBytes(bs: seq<byte>): (r: string)
    ensures |r| == 3 * |bs|
  {
    if bs == [] then "" else PercentByte(bs[0]) + PercentBytes(bs[1..])
  }

  /** What `encodeURIComponent` may emit: a safe character, `%`, or a hexadecimal digit. */
  predicate IsEncodedComponentChar(c: char)
  {
    IsUriComponentSafe(c) || c == '%'
  }

  /** `encodeURIComponent(s)`: safe characters are kept, every other character becomes its UTF-8 bytes in `%XY` form. */
  function EncodeUriComponent(s: string): (r: string)
    ensures |r| >= |s|
    ensures forall i :: 0 <= i < |r| ==> IsEncodedComponentChar(r[i])
  {
    if s == [] then ""
    else
      var head := if IsUriComponentSafe(s[0]) then [s[0]] else PercentBytes(Utf8Char(s[0]));
      assert forall i :: 0 <= i < |head| ==> IsEncodedComponentChar(head[i]) by {
        if !IsUriComponentSafe(s[0]) {
          PercentBytesAlphabet(Utf8Char(s[0]));
        }
      }
      head + EncodeUriComponent(s[1..])
  }

  lemma {:induction false} PercentBytesAlphabet(bs: seq<byte>)
    ensures forall i :: 0 <= i < |PercentBytes(bs)| ==> IsEncodedComponentChar(PercentBytes(bs)[i])
  {
    if bs != [] {
      PercentBytesAlphabet(bs[1..]);
      var r := PercentBytes(bs);
      assert r == PercentByte(bs[0]) + PercentBytes(bs[1..]);
      forall i | 0 <= i < |r| ensures IsEncodedComponentChar(r[i]) {
        if i >= 3 {
          assert r[i] == PercentBytes(bs[1..])[i - 3];
        }
      }
    }
  }

  /** A string of safe characters passes through `encodeURIComponent` unchanged. */
  lemma {:induction false} EncodeSafeIsIdentity(s: string)
    requires forall i :: 0 <= i < |s| ==> IsUriComponentSafe(s[i])
    ensures EncodeUriComponent(s) == s
  {
    if s != [] {
      EncodeSafeIsIdentity(s[1..]);
    }
  }

  /** The output of `encodeURIComponent` never holds the query-string delimiters `&`, `=` or `?`. */
  lemma EncodedHasNoDelimiters(s: string)
    ensures '&' !in EncodeUriComponent(s) && '=' !in EncodeUriComponent(s) && '?' !in EncodeUriComponent(s)
  {
  }
}
