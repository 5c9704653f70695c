/** Bytes and the little-endian 16-bit integers the iBFT stores in its head region. */
module Bytes {

  /** One octet of the table. */
  newtype byte = x: int | 0 <= x < 256

  /** First value that no longer fits a uint16. */
  const Uint16Limit: nat := 0x1_0000

  /** Reads the little-endian uint16 stored at s[i], s[i+1]. */
  function Get16(s: seq<byte>, i: nat): (n: nat)
    requires i + 2 <= |s|
    ensures n < Uint16Limit
  {
    s[i] as nat + 256 * s[i + 1] as nat
  }

  /** Writes n as a little-endian uint16 (low byte first). */
  function LE16(n: nat): (r: seq<byte>)
    requires n < Uint16Limit
    ensures |r| == 2
    ensures Get16(r, 0) == n
  {
    [(n % 256) as byte, (n / 256) as byte]
  }

  /** Reading two bytes as a uint16 and writing the value back gives the same two bytes. */
  lemma Get16Inverse(s: seq<byte>, i: nat)
    requires i + 2 <= |s|
    ensures LE16(Get16(s, i)) == s[i..i + 2]
  {
  }

  /** The bytes of an ASCII text, one byte per character. */
  function Ascii(s: string): (r: seq<byte>)
    requires forall i :: 0 <= i < |s| ==> s[i] as int < 128
    ensures |r| == |s|
    ensures forall i :: 0 <= i < |s| ==> r[i] as int == s[i] as int
  {
    seq(|s|, i requires 0 <= i < |s| => s[i] as int as byte)
  }
}
