/** 32-bit words as the C code uses them. A value assigned to an `int32` is proved to be in
    range, so signed overflow never happens where no wrap is written out. */
module Words {
  type int32 = x: int | -0x8000_0000 <= x < 0x8000_0000
  type uint32 = x: int | 0 <= x < 0x1_0000_0000

  /** Unsigned arithmetic wraps. */
  function Wrap(x: int): uint32 {
    x % 0x1_0000_0000
  }

  /** The same bits read as a signed word. */
  function Signed(x: uint32): int32 {
    if x < 0x8000_0000 then x else x - 0x1_0000_0000
  }

  /** The same bits without the sign bit. */
  function Abs(x: int32): (r: int32)
    ensures 0 <= r
  {
    if x < 0 then x + 0x8000_0000 else x
  }

  const WORD: int := 0x1_0000_0000
  const SIGN: uint32 := 0x8000_0000

  /** Two words as one integer, most significant word first. */
  function Wide(high: int, low: int): (r: int)
    ensures high >= 0 && low >= 0 ==> r >= 0
  {
    high * WORD + low
  }

  /** Doubling a two-word integer carries the top bit of the low word. */
  lemma DoubleWide(high: int, low: uint32)
    ensures Wide(high + high + low / SIGN, Wrap(low + low)) == 2 * Wide(high, low)
  {
  }

  /** Subtraction borrows one from the high word when the low word is the smaller. */
  lemma SubtractWide(high: int, low: uint32, h: int, l: uint32)
    ensures Wide(high - h - (if low < l then 1 else 0), Wrap(low - l)) == Wide(high, low) - Wide(h, l)
  {
  }
}
