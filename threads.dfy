/**
 * The thread record: its state byte, its kind (best-effort or time-triggered),
 * its priority attributes, its time slice and, for a time-triggered thread,
 * its period, phase, budget and next activation time.
 */
module Threads {
  import opened Priority

  /** The state codes kept in the low nibble of a thread's stat byte. */
  const STAT_MASK: bv8 := 0x0f
  const INIT: bv8 := 0x00
  const READY: bv8 := 0x01
  const SUSPEND: bv8 := 0x02
  const CLOSE: bv8 := 0x04

  /** (stat & RT_THREAD_STAT_MASK) */
  function StateOf(stat: bv8): bv8
  {
    stat & STAT_MASK
  }

  /** `s | (stat & ~RT_THREAD_STAT_MASK)`: a new state with every other flag bit kept. */
  function WithState(stat: bv8, s: bv8): (r: bv8)
    requires s & !STAT_MASK == 0
    ensures StateOf(r) == s
    ensures r & !STAT_MASK == stat & !STAT_MASK
  {
    s | (stat & !STAT_MASK)
  }

  /** The kernel's return and error codes that this part of the kernel produces. */
  datatype Err = EOk | EError | ETimeout | EFull | ENoSys

  /** One thread control block, reduced to the fields the scheduler reads and writes.
      Its links into the ready lists, the TT list, the registry and the defunct
      list are kept by the kernel as sequences of thread indices. */
  datatype Thread = Thread(
    stat: bv8,
    isTT: bool,
    initPriority: nat,
    currentPriority: nat,
    masks: Masks,
    initTick: nat,
    remainingTick: nat,
    error: Err,
    cycle: nat,
    offset: nat,
    maxExecTime: nat,
    startTime: nat,
    timerActive: bool)

  /** The record _rt_thread_init leaves behind: state INIT, a best-effort thread
      at the given priority with empty masks, the given time slice, no error and
      an inactive timer. */
  function InitialThread(priority: nat, tick: nat): Thread
  {
    Thread(INIT, false, priority, priority, Masks(0, 0, 0), tick, tick, EOk, 0, 0, 0, 0, false)
  }

  /** rt_uint32_t increment and decrement, with wrap-around. */
  function Inc32(x: nat): (r: nat)
    requires x < 0x1_0000_0000
    ensures r < 0x1_0000_0000 && (r + 0x1_0000_0000 - x) % 0x1_0000_0000 == 1
  {
    if x == 0xFFFF_FFFF then 0 else x + 1
  }

  function Dec32(x: nat): (r: nat)
    requires x < 0x1_0000_0000
    ensures r < 0x1_0000_0000 && (x + 0x1_0000_0000 - r) % 0x1_0000_0000 == 1
  {
    if x == 0 then 0xFFFF_FFFF else x - 1
  }

  /** Counting a started TT thread and uncounting it when it exits leaves the
      running-TT count as it was, wrap-around included. */
  lemma CountRoundTrip(x: nat)
    requires x < 0x1_0000_0000
    ensures Dec32(Inc32(x)) == x && Inc32(Dec32(x)) == x
  {
  }

  // ---------------------------------------------------------------------------
  // The priority guard of _rt_thread_init

  /** The guard _rt_thread_init applies, as written: priority <= RT_THREAD_PRIORITY_MAX.
      It has to admit RT_THREAD_PRIORITY_MAX itself because rt_TT_thread_create
      initialises its TT threads at that priority. */
  predicate InitGuard(priority: nat)
  {
    priority <= PRIORITY_MAX
  }

  /** The guard a best-effort thread needs: a level of the ready table. */
  predicate BestEffortPriority(priority: nat)
  {
    priority < PRIORITY_MAX
  }

  /** As written, the guard also lets a best-effort thread be created at
      RT_THREAD_PRIORITY_MAX: startup then computes number_mask = 1 << 32, which
      does not fit the 32-bit field, and the thread's priority is one past the
      last ready list. */
  lemma InitGuardAdmitsOverflow()
    ensures InitGuard(PRIORITY_MAX) && !BestEffortPriority(PRIORITY_MAX)
    ensures NarrowMasks(PRIORITY_MAX).numberMask == 0x1_0000_0000
  {
    Pow2Top();
    assert Pow2(32) == 2 * Pow2(31);
  }

  /** The corrected guard for best-effort threads: it admits a subset of what
      the written guard admits, and every priority it admits has bitmap
      attributes that fit a 32-bit word and decode back to it. */
  lemma BestEffortPriorityFits(priority: nat)
    requires BestEffortPriority(priority)
    ensures InitGuard(priority)
    ensures PriorityMasks(priority).numberMask < 0x1_0000_0000
    ensures DecodePriority(PriorityMasks(priority), PRIORITY_MAX > 32) == priority
  {
    NarrowMasksRoundTrip(priority);
  }
}
