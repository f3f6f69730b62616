/** 64-bit unsigned words with C's wrap-around arithmetic. */
module Words {
  const TWO64: int := 0x1_0000_0000_0000_0000

  type Word = w: int | 0 <= w < TWO64

  function Wrap(x: int): Word {
    x % TWO64
  }

  function FromBool(b: bool): Word {
    if b then 1 else 0
  }
}
