/** Unsigned machine words, written out on unbounded integers, and the size of a disk sector. */
module Words {

  const TWO32: int := 0x1_0000_0000
  const TWO64: int := 0x1_0000_0000_0000_0000
  const SECTOR: nat := 512

  /** The value an unsigned 64-bit variable holds after `x` is assigned to it. */
  function U64(x: int): nat {
    x % TWO64
  }

  /** The value an unsigned 32-bit variable holds after `x` is assigned to it. */
  function U32(x: int): nat {
    x % TWO32
  }

  function Smaller(a: nat, b: nat): nat {
    if a > b then b else a
  }
}
