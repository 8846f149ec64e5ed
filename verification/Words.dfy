/** Unsigned machine words as numbers, and the wrap-around of 32-bit sums. */
module Words {
  const TWO32: int := 0x1_0000_0000
  const TWO64: int := 0x1_0000_0000_0000_0000

  type Word = x: int | 0 <= x < TWO32

  function Wrap(x: int): Word { x % TWO32 }

  lemma WrapSmall(x: int)
    ensures 0 <= x < TWO32 ==> Wrap(x) == x
  {
  }
}
