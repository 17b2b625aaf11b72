/** Hexadecimal digits, printed in lower case and read in either. */
module Hex {
  import opened Bytes

  function HexDigit(n: nat): Byte
    requires n < 16
  {
    if n < 10 then 0x30 + n else 0x61 + (n - 10)
  }

  predicate IsHex(c: Byte) {
    0x30 <= c <= 0x39 || 0x41 <= c <= 0x46 || 0x61 <= c <= 0x66
  }

  /** h2int: other characters count as 0. */
  function HexValue(c: Byte): (n: nat)
    ensures n < 16
  {
    if !IsHex(c) then 0 else if c <= 0x39 then c - 0x30 else if c <= 0x46 then c - 0x41 + 10 else c - 0x61 + 10
  }

  /** The value of a digit in either case, and 0 for any other character. */
  lemma HexValues(c: Byte)
    ensures 0x30 <= c <= 0x39 ==> IsHex(c) && HexValue(c) == c - 0x30
    ensures 0x41 <= c <= 0x46 ==> IsHex(c) && HexValue(c) == HexValue(c + 0x20) == c - 0x37
    ensures 0x61 <= c <= 0x66 ==> IsHex(c) && HexValue(c) == c - 0x57
    ensures !(0x30 <= c <= 0x39 || 0x41 <= c <= 0x46 || 0x61 <= c <= 0x66) ==> !IsHex(c) && HexValue(c) == 0
  {
  }

  function PairValue(hi: Byte, lo: Byte): Byte {
    16 * HexValue(hi) + HexValue(lo)
  }

  lemma HexPair(c: Byte)
    ensures IsHex(HexDigit(c / 16)) && IsHex(HexDigit(c % 16))
    ensures PairValue(HexDigit(c / 16), HexDigit(c % 16)) == c
  {
  }
}
