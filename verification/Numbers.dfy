/** Bytes, words of 32 bits, and the smaller of two numbers. */
module Numbers {
  const WORD: nat := 0x1_0000_0000

  type Byte = x: int | 0 <= x < 256

  function Min(a: int, b: int): int { if a < b then a else b }
}
