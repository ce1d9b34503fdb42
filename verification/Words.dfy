/** The machine word of the modelled 32-bit kernel, and arithmetic modulo it. */
module Words {
  const WORD: nat := 0x1_0000_0000

  /** Multiples of the word size drop out. */
  lemma AddMultiple(x: int, k: int)
    ensures (x + k * WORD) % WORD == x % WORD
  {}

  function Exp2(k: nat): nat { if k == 0 then 1 else 2 * Exp2(k - 1) }

  lemma Exp2Values()
    ensures Exp2(3) == 8 && Exp2(20) == 0x10_0000 && Exp2(31) == 0x8000_0000 && Exp2(32) == WORD
  {
    assert Exp2(10) == 0x400;
    assert Exp2(20) == 0x400 * Exp2(10);
    assert Exp2(30) == 0x400 * Exp2(20);
  }
}
