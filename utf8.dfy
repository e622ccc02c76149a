/**
 * UTF-8 encoding of response text. A Dafny `char` is a Unicode scalar value,
 * so every string here is a well-formed sequence of code points; each one
 * becomes one to four bytes.
 */
module Utf8 {

  type byte = b: int | 0 <= b < 256

  /** The UTF-8 bytes of one code point. */
  function EncodeScalar(c: char): (r: seq<byte>)
    ensures 1 <= |r| <= 4
    ensures |r| == 1 <==> c as int < 0x80
    ensures c as int < 0x80 ==> r == [c as int]
  {
    var cp := c as int;
    if cp < 0x80 then [cp]
    else if cp < 0x800 then [0xC0 + cp / 0x40, 0x80 + cp % 0x40]
    else if cp < 0x1_0000 then [0xE0 + cp / 0x1000, 0x80 + (cp / 0x40) % 0x40, 0x80 + cp % 0x40]
    else [0xF0 + cp / 0x4_0000, 0x80 + (cp / 0x1000) % 0x40, 0x80 + (cp / 0x40) % 0x40, 0x80 + cp % 0x40]
  }

  /** The UTF-8 bytes of a string: at least one and at most four per character. */
  function Encode(s: string): (r: seq<byte>)
    ensures |s| <= |r| <= 4 * |s|
    decreases |s|
  {
    if s == [] then [] else EncodeScalar(s[0]) + Encode(s[1..])
  }

  /** Text made of ASCII characters encodes to one byte per character, each its code. */
  lemma {:induction false} AsciiEncodesToCodes(s: string)
    requires forall i :: 0 <= i < |s| ==> s[i] as int < 0x80
    ensures |Encode(s)| == |s|
    ensures forall i :: 0 <= i < |s| ==> Encode(s)[i] == s[i] as int
    decreases |s|
  {
    if s != [] {
      AsciiEncodesToCodes(s[1..]);
      assert Encode(s) == [s[0] as int] + Encode(s[1..]);
      forall i | 0 <= i < |s|
        ensures Encode(s)[i] == s[i] as int
      {
        if i > 0 {
          assert Encode(s)[i] == Encode(s[1..])[i - 1];
          assert s[1..][i - 1] == s[i];
        }
      }
    }
  }
}
