/** Bytes and ASCII text, as Go's `[]byte` and string literals see them. */
module Bytes {

  /** Go's `byte` (uint8) */
  newtype byte = x: int | 0 <= x < 256

  /** True when every character of `s` is 7-bit ASCII, so it is one byte in UTF-8 */
  predicate IsAscii(s: string) {
    forall i :: 0 <= i < |s| ==> s[i] < 128 as char
  }

  /** The bytes of an ASCII string literal */
  function Ascii(s: string): (b: seq<byte>)
    requires IsAscii(s)
    ensures |b| == |s|
    ensures forall i :: 0 <= i < |s| ==> b[i] as int == s[i] as int
  {
    seq(|s|, i requires 0 <= i < |s| => s[i] as int as byte)
  }

  /** True when `sig` occurs in `b` starting at index `offset` */
  predicate HasAt(b: seq<byte>, offset: nat, sig: seq<byte>) {
    offset + |sig| <= |b| && b[offset..offset + |sig|] == sig
  }
}
