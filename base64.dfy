/**
 * Base 64 encoding as `btoa` performs it on a string of byte-valued
 * characters (section 4 of RFC 4648): every three bytes become four
 * characters of the 64-character alphabet, and a final group of one or two
 * bytes is completed with `==` or `=`.
 */
module Base64 {
  import opened Wrappers
  import opened Encoding

  /** The characters of the base 64 alphabet, `A-Z a-z 0-9 + /` (table 1 of RFC 4648). */
  predicate IsBase64Char(c: char)
  {
    ('A' <= c <= 'Z') || ('a' <= c <= 'z') || ('0' <= c <= '9') || c == '+' || c == '/'
  }

  /** The character that encodes the six-bit value `v`. */
  function Sextet(v: int): (c: char)
    requires 0 <= v < 64
    ensures IsBase64Char(c)
    ensures SextetValue(c) == v
  {
    if v < 26 then ('A' as int + v) as char
    else if v < 52 then ('a' as int + v - 26) as char
    else if v < 62 then ('0' as int + v - 52) as char
    else if v == 62 then '+'
    else '/'
  }

  /** The six-bit value a base 64 character stands for. */
  function SextetValue(c: char): (v: int)
    requires IsBase64Char(c)
    ensures 0 <= v < 64
  {
    if 'A' <= c <= 'Z' then c as int - 'A' as int
    else if 'a' <= c <= 'z' then c as int - 'a' as int + 26
    else if '0' <= c <= '9' then c as int - '0' as int + 52
    else if c == '+' then 62
    else 63
  }

  /** How many `=` close the encoding of `n` bytes. */
  function PaddingLength(n: nat): (p: nat)
    ensures p <= 2
  {
    (3 - n % 3) % 3
  }

  /** The base 64 encoding of `bs`, padded to a multiple of four characters. */
  function Encode(bs: seq<byte>): string
    decreases |bs|
  {
    if |bs| == 0 then ""
    else if |bs| == 1 then
      [Sextet(bs[0] / 4), Sextet(bs[0] % 4 * 16)] + "=="
    else if |bs| == 2 then
      [Sextet(bs[0] / 4), Sextet(bs[0] % 4 * 16 + bs[1] / 16), Sextet(bs[1] % 16 * 4)] + "="
    else
      [Sextet(bs[0] / 4), Sextet(bs[0] % 4 * 16 + bs[1] / 16), Sextet(bs[1] % 16 * 4 + bs[2] / 64), Sextet(bs[2] % 64)]
      + Encode(bs[3..])
  }

  /** The one to three bytes a group of four characters stands for; `=` may close the group. */
  function DecodeGroup(c0: char, c1: char, c2: char, c3: char): Option<seq<byte>>
  {
    if !IsBase64Char(c0) || !IsBase64Char(c1) then None
    else
      var v0, v1 := SextetValue(c0), SextetValue(c1);
      var b0 := v0 * 4 + v1 / 16;
      if c2 == '=' && c3 == '=' then Some([b0])
      else if !IsBase64Char(c2) then None
      else
        var v2 := SextetValue(c2);
        var b1 := v1 % 16 * 16 + v2 / 4;
        if c3 == '=' then Some([b0, b1])
        else if !IsBase64Char(c3) then None
        else Some([b0, b1, v2 % 4 * 64 + SextetValue(c3)])
  }

  /** Reads a base 64 string back into bytes; only the last group may be padded. */
  function Decode(s: string): Option<seq<byte>>
    decreases |s|
  {
    if |s| == 0 then Some([])
    else if |s| < 4 then None
    else
      match DecodeGroup(s[0], s[1], s[2], s[3])
      case None => None
      case Some(group) =>
        if |group| < 3 then (if |s| == 4 then Some(group) else None)
        else
          match Decode(s[4..])
          case None => None
          case Some(rest) => Some(group + rest)
  }

  /** The length of the encoding: four characters per started group of three bytes. */
  lemma {:induction false} EncodeLength(bs: seq<byte>)
    ensures |Encode(bs)| == 4 * ((|bs| + 2) / 3)
    ensures |Encode(bs)| % 4 == 0
    decreases |bs|
  {
    if |bs| > 2 {
      EncodeLength(bs[3..]);
    }
  }

  /**
   * The encoding is alphabet characters followed by exactly PaddingLength(|bs|)
   * characters `=`; `=` occurs nowhere else.
   */
  lemma {:induction false} EncodeShape(bs: seq<byte>)
    ensures |Encode(bs)| >= PaddingLength(|bs|)
    ensures forall i :: 0 <= i < |Encode(bs)| - PaddingLength(|bs|) ==> IsBase64Char(Encode(bs)[i])
    ensures forall i :: |Encode(bs)| - PaddingLength(|bs|) <= i < |Encode(bs)| ==> Encode(bs)[i] == '='
    decreases |bs|
  {
    if |bs| > 2 {
      EncodeShape(bs[3..]);
      var e := Encode(bs);
      var tail := Encode(bs[3..]);
      assert PaddingLength(|bs|) == PaddingLength(|bs[3..]|);
      assert forall i :: 4 <= i < |e| ==> e[i] == tail[i - 4];
    }
  }

  /** The six-bit values of a group give back the bytes they were cut from. */
  lemma GroupArithmetic(b0: byte, b1: byte, b2: byte, v0: int, v1: int, v2: int, v3: int)
    requires v0 == b0 / 4 && v1 == b0 % 4 * 16 + b1 / 16
    requires v2 == b1 % 16 * 4 + b2 / 64 && v3 == b2 % 64
    ensures v0 * 4 + v1 / 16 == b0
    ensures v1 % 16 * 16 + v2 / 4 == b1
    ensures v2 % 4 * 64 + v3 == b2
  {
  }

  /** One full group decodes to the three bytes it was made from. */
  lemma DecodeFullGroup(b0: byte, b1: byte, b2: byte)
    ensures DecodeGroup(Sextet(b0 / 4), Sextet(b0 % 4 * 16 + b1 / 16), Sextet(b1 % 16 * 4 + b2 / 64), Sextet(b2 % 64))
            == Some([b0, b1, b2])
  {
    var v0, v1, v2, v3 := b0 / 4, b0 % 4 * 16 + b1 / 16, b1 % 16 * 4 + b2 / 64, b2 % 64;
    GroupArithmetic(b0, b1, b2, v0, v1, v2, v3);
    var c0, c1, c2, c3 := Sextet(v0), Sextet(v1), Sextet(v2), Sextet(v3);
    assert c2 != '=' && c3 != '=';
    assert DecodeGroup(c0, c1, c2, c3) == Some([v0 * 4 + v1 / 16, v1 % 16 * 16 + v2 / 4, v2 % 4 * 64 + v3]);
  }

  /** A group padded with `=` decodes to the one byte it was made from. */
  lemma DecodeOneByteGroup(b0: byte)
    ensures DecodeGroup(Sextet(b0 / 4), Sextet(b0 % 4 * 16), '=', '=') == Some([b0])
  {
  }

  /** A group padded with one `=` decodes to the two bytes it was made from. */
  lemma DecodeTwoByteGroup(b0: byte, b1: byte)
    ensures DecodeGroup(Sextet(b0 / 4), Sextet(b0 % 4 * 16 + b1 / 16), Sextet(b1 % 16 * 4), '=') == Some([b0, b1])
  {
    assert Sextet(b1 % 16 * 4) != '=';
  }

  /** Decoding recovers every byte sequence from its encoding (the encoding loses nothing). */
  lemma {:induction false} DecodeEncode(bs: seq<byte>)
    ensures Decode(Encode(bs)) == Some(bs)
    decreases |bs|
  {
    var e := Encode(bs);
    if |bs| == 1 {
      DecodeOneByteGroup(bs[0]);
      assert bs == [bs[0]];
    } else if |bs| == 2 {
      DecodeTwoByteGroup(bs[0], bs[1]);
      assert bs == [bs[0], bs[1]];
    } else if |bs| > 2 {
      DecodeFullGroup(bs[0], bs[1], bs[2]);
      DecodeEncode(bs[3..]);
      assert e[4..] == Encode(bs[3..]);
      assert bs == [bs[0], bs[1], bs[2]] + bs[3..];
    }
  }
}
