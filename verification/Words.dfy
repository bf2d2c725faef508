/** Bytes and 32-bit words as integers. */
module Words {
  const WORD_SPAN: int := 0x1_0000_0000

  type Byte = b: int | 0 <= b < 0x100
  type Bytes = seq<Byte>
  type Word = w: int | 0 <= w < 0x1_0000_0000

  function Pow2(n: nat): (p: int)
    ensures p >= 1
  {
    if n == 0 then 1 else 2 * Pow2(n - 1)
  }
}
