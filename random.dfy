/**
 * The linear congruential generator behind rand() and srand() in thread.c,
 * with rand_next as a 32-bit unsigned long.
 */
module Random {

  /** The arithmetic of an unsigned long on the modelled 32-bit target. */
  const WORD: nat := 0x1_0000_0000

  /** rand_next * 1103515245 + 12345, wrapped to 32 bits. */
  function LcgStep(x: nat): (r: nat)
    ensures r < WORD
  {
    (x * 1103515245 + 12345) % WORD
  }

  /** The value rand() hands out for a state: bits 16 to 30 of it. */
  function RandValue(x: nat): (r: nat)
    ensures r < 32768
  {
    (x / 65536) % 32768
  }

  class Lcg {
    /** rand_next. */
    var next: nat

    constructor ()
      ensures next == 1
    {
      next := 1;
    }

    /** srand(seed). */
    method Srand(seed: nat)
      requires seed < WORD
      modifies this
      ensures next == seed
    {
      next := seed;
    }

    /** rand(): one step of the generator, and a result below 32768. */
    method Rand() returns (r: nat)
      modifies this
      ensures next == LcgStep(old(next)) && r == RandValue(next)
      ensures r < 32768 && next < WORD
    {
      next := LcgStep(next);
      r := RandValue(next);
    }
  }
}
