/** Machine words of the host, and the low/high halves in which the device registers take a 64-bit value. */
module Words {
  const TWO_32: nat := 0x1_0000_0000
  const TWO_64: nat := 0x1_0000_0000_0000_0000

  type uint32 = x: int | 0 <= x < TWO_32
  type uint64 = x: int | 0 <= x < TWO_64

  function Low32(x: uint64): uint32 {
    x % TWO_32
  }

  function High32(x: uint64): uint32 {
    x / TWO_32
  }

  function Join64(high: uint32, low: uint32): uint64 {
    high * TWO_32 + low
  }

  // The two halves make the word, the high one counting units of 4294967296.
  lemma HalvesMakeWord(x: uint64)
    ensures x < 18446744073709551616
    ensures Low32(x) < 4294967296 && High32(x) < 4294967296 && x == High32(x) * 4294967296 + Low32(x)
    ensures Join64(High32(x), Low32(x)) == x
  {
  }
}
