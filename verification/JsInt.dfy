/** JavaScript's bitwise operators work on 32-bit patterns and return signed numbers. */
module JsInt {
  import opened Bits

  const WORD: nat := 0x1_0000_0000

  type u32 = x: nat | x < WORD

  lemma WordIsPow2()
    ensures Pow2(32) == WORD && Pow2(31) == 0x8000_0000 && Pow2(8) == 256
  {
    assert Pow2(8) == 256;
    assert Pow2(16) == 65536;
    assert Pow2(24) == 0x100_0000;
  }

  /** `x >>> 0` */
  function Unsigned(x: int): u32 {
    x % WORD
  }

  /** The signed number a bitwise operator returns. */
  function Signed(x: u32): int {
    if x < 0x8000_0000 then x else x - WORD
  }

  /** It is the number of the pattern between -2^31 and 2^31 - 1. */
  lemma SignedIs(x: u32, y: int)
    requires -0x8000_0000 <= y < 0x8000_0000 && (y == x || y == x - 0x1_0000_0000)
    ensures Signed(x) == y && Unsigned(y) == x
  {
  }

  lemma SignedUnsigned(x: u32)
    ensures Unsigned(Signed(x)) == x && Unsigned(x) == x
  {
  }
}
