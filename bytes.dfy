/** Bytes of a fixed-length control field and the characters its codes are drawn from. */
module Bytes {
  /** An unsigned 8-bit value (Rust `u8`). */
  type byte = b: int | 0 <= b < 0x100

  /** An unsigned 16-bit value (Rust `u16`), the key type of two-character codes. */
  type u16 = k: int | 0 <= k < 0x1_0000

  /** '#', the "blank / not applicable" code. */
  const BlankByte: byte := '#' as byte

  /** '|', the "no attempt to code" code and every table's fallback. */
  const NotCodedByte: byte := '|' as byte

  /** A literal space, which no table lists. */
  const SpaceByte: byte := ' ' as byte

  /** The alphabet of every listed code: lower-case letters, digits, '#' and '|'. */
  predicate IsCodeChar(c: char) {
    ('a' <= c <= 'z') || ('0' <= c <= '9') || c == '#' || c == '|'
  }

  /** A byte whose character is in the code alphabet. */
  predicate IsCodeByte(b: byte) {
    IsCodeChar(b as char)
  }

  /** The bytes of an ASCII string, for writing fields as text. */
  function Ascii(s: string): (bs: seq<byte>)
    requires forall i :: 0 <= i < |s| ==> s[i] < 128 as char
    ensures |bs| == |s|
    ensures forall i :: 0 <= i < |s| ==> bs[i] as int == s[i] as int
  {
    seq(|s|, i requires 0 <= i < |s| => s[i] as byte)
  }
}
