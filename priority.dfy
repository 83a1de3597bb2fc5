/**
 * The priority attributes a best-effort thread carries so that the ready
 * bitmap can be updated in O(1): with at most 32 levels a single bit per
 * priority; with more levels a group bit (prio >> 3) and a bit within the
 * group (prio & 7).
 */
module Priority {

  /** RT_THREAD_PRIORITY_MAX of the modelled configuration. Time-triggered
      threads use this value itself, one above every best-effort level. */
  const PRIORITY_MAX: nat := 32

  /** number, number_mask and high_mask of a thread. */
  datatype Masks = Masks(number: nat, numberMask: nat, highMask: nat)

  function Pow2(k: nat): (p: nat)
    ensures p >= 1
  {
    if k == 0 then 1 else 2 * Pow2(k - 1)
  }

  /** __rt_ffs(x) - 1: the index of the lowest set bit of a non-zero word. */
  function LowestSetBit(x: nat): nat
    requires x > 0
  {
    if x % 2 == 1 then 0 else 1 + LowestSetBit(x / 2)
  }

  lemma {:induction false} LowestSetBitOfPow2(k: nat)
    ensures LowestSetBit(Pow2(k)) == k
  {
    if k > 0 {
      assert Pow2(k) % 2 == 0 && Pow2(k) / 2 == Pow2(k - 1);
      LowestSetBitOfPow2(k - 1);
    }
  }

  /** The top bit of a 32-bit word and of a byte. */
  lemma Pow2Top()
    ensures Pow2(7) == 0x80 && Pow2(31) == 0x8000_0000
  {
    assert Pow2(1) == 0x2;
    assert Pow2(2) == 0x4;
    assert Pow2(3) == 0x8;
    assert Pow2(4) == 0x10;
    assert Pow2(5) == 0x20;
    assert Pow2(6) == 0x40;
    assert Pow2(7) == 0x80;
    assert Pow2(8) == 0x100;
    assert Pow2(9) == 0x200;
    assert Pow2(10) == 0x400;
    assert Pow2(11) == 0x800;
    assert Pow2(12) == 0x1000;
    assert Pow2(13) == 0x2000;
    assert Pow2(14) == 0x4000;
    assert Pow2(15) == 0x8000;
    assert Pow2(16) == 0x10000;
    assert Pow2(17) == 0x20000;
    assert Pow2(18) == 0x40000;
    assert Pow2(19) == 0x80000;
    assert Pow2(20) == 0x100000;
    assert Pow2(21) == 0x200000;
    assert Pow2(22) == 0x400000;
    assert Pow2(23) == 0x800000;
    assert Pow2(24) == 0x1000000;
    assert Pow2(25) == 0x2000000;
    assert Pow2(26) == 0x4000000;
    assert Pow2(27) == 0x8000000;
    assert Pow2(28) == 0x10000000;
    assert Pow2(29) == 0x20000000;
    assert Pow2(30) == 0x40000000;
    assert Pow2(31) == 0x80000000;
  }

  lemma {:induction false} Pow2Monotone(j: nat, k: nat)
    requires j <= k
    ensures Pow2(j) <= Pow2(k)
    decreases k
  {
    if j < k {
      Pow2Monotone(j, k - 1);
    }
  }

  /** The attributes for 32 levels or fewer: number_mask = 1 << prio. */
  function NarrowMasks(prio: nat): Masks
  {
    Masks(0, Pow2(prio), 0)
  }

  /** The attributes for more than 32 levels:
      number = prio >> 3, number_mask = 1 << number, high_mask = 1 << (prio & 7). */
  function WideMasks(prio: nat): Masks
  {
    Masks(prio / 8, Pow2(prio / 8), Pow2(prio % 8))
  }

  /** The attributes startup and a priority change compute for the configured
      number of levels. */
  function PriorityMasks(prio: nat): Masks
  {
    if PRIORITY_MAX > 32 then WideMasks(prio) else NarrowMasks(prio)
  }

  /** How the scheduler turns the bitmap bits of a single thread back into its
      priority: ffs(group) - 1, or (number << 3) + ffs(ready_table[number]) - 1. */
  function DecodePriority(m: Masks, wide: bool): nat
    requires m.numberMask > 0 && (wide ==> m.highMask > 0)
  {
    if wide then LowestSetBit(m.numberMask) * 8 + LowestSetBit(m.highMask)
    else LowestSetBit(m.numberMask)
  }

  /** With at most 32 levels the single bit fits a 32-bit word and decodes back
      to the priority it was computed from. */
  lemma NarrowMasksRoundTrip(prio: nat)
    requires prio < 32
    ensures NarrowMasks(prio).numberMask < 0x1_0000_0000
    ensures DecodePriority(NarrowMasks(prio), false) == prio
  {
    LowestSetBitOfPow2(prio);
    Pow2Monotone(prio, 31);
    Pow2Top();
  }

  /** With up to 256 levels the group bit fits a 32-bit word, the bit within the
      group fits a byte, and together they decode back to the priority. */
  lemma WideMasksRoundTrip(prio: nat)
    requires prio < 256
    ensures WideMasks(prio).number < 32
    ensures WideMasks(prio).numberMask < 0x1_0000_0000
    ensures WideMasks(prio).highMask < 0x100
    ensures DecodePriority(WideMasks(prio), true) == prio
  {
    LowestSetBitOfPow2(prio / 8);
    LowestSetBitOfPow2(prio % 8);
    Pow2Monotone(prio / 8, 31);
    Pow2Monotone(prio % 8, 7);
    Pow2Top();
  }

  /** In the configured kernel every best-effort priority decodes back to itself. */
  lemma PriorityMasksRoundTrip(prio: nat)
    requires prio < PRIORITY_MAX
    ensures PriorityMasks(prio).numberMask > 0
    ensures DecodePriority(PriorityMasks(prio), PRIORITY_MAX > 32) == prio
  {
    NarrowMasksRoundTrip(prio);
  }
}
