/** Word sizes, and strings in fields of limited length. */
module Basics {
  const TWO_32: nat := 0x1_0000_0000
  const TWO_64: nat := 0x1_0000_0000_0000_0000

  /** A hexadecimal digit is the number that it stands for. */
  lemma DigitBack(n: nat)
    requires n < 16
    ensures n as bv4 as nat == n
  {
  }

  /** What a field of `limit` characters keeps of a string. */
  function Clip(s: string, limit: nat): string {
    if |s| <= limit then s else s[..limit]
  }
}
