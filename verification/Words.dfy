/** 32-bit words. */
module Words {

  const WORD: int := 0x1_0000_0000

  /** The remainder that a uint32_t keeps. */
  function Wrap(x: int): (w: int)
    ensures 0 <= w < WORD
  {
    x % WORD
  }

  /** An unsigned word read as an int32_t. */
  function Signed(w: int): (c: int)
    requires 0 <= w < WORD
    ensures -0x8000_0000 <= c <= 0x7FFF_FFFF
  {
    if w <= 0x7FFF_FFFF then w else w - WORD
  }
}
