# Time-triggered threads for RT-Thread, in Dafny

This project models the scheduling core of an RT-Thread fork that runs
time-triggered (TT) threads beside the usual best-effort (BE) threads.
A TT thread is created with a period (`cycle`), a phase (`offset`) and a
budget (`maxi_exec_time`). It is admitted only if no activation of it can
overlap an activation of a registered TT thread, one created before it that
has not exited. It then runs once per
period, at its activation time, ahead of every BE thread. The model covers:

- **Admission** (module `Admission`): `rt_get_gcd`, the pairwise collision test
  `rt_TT_thread_time_collision_check`, and the first activation time computed
  by `rt_TT_thread_create`.
- **Priority attributes** (module `Priority`): `number`, `number_mask` and
  `high_mask`, as startup and the priority change compute them, and how the
  scheduler decodes them back.
- **The thread record** (module `Threads`): the `stat` byte with its state
  nibble, `_rt_thread_init`'s initial fields, and the 32-bit running-TT counter.
- **The lists** (modules `Lists`, `Queues`, `Invariants`):
  - the BE ready lists, one per priority (FIFO);
  - the bottom level of the TT skip list, sorted by activation time;
  - the registry of created TT threads (`rt_created_TT_thread_list`);
  - the defunct list;
  - the consistency conditions between these lists and the thread records:
    a started thread is READY exactly when it is linked where the scheduler
    looks for it.
- **The lifecycle** (module `Kernel`, class `Scheduler`): create, TT create,
  startup, suspend, resume, timeout, the priority change of
  `rt_thread_control`, exit, and the five outcomes of `rt_thread_yield`.
  - Every method keeps the consistency conditions and states its whole new state.
  - The effect on the lists is given by small functions (`ReadyWith`,
    `ReadyWithout`, `TTWith`, `TTWithout`). Their properties are proved in
    `Queues`, `Lists` and `Invariants`.
  - `rt_schedule` is recorded as a `Schedule` event in `trace`, and gives a
    current TT thread whose time slice is used up its `init_tick` again; the
    thread it picks is chosen by `SetCurrent`.
  - Calls of timeout hooks are recorded as `TimeoutHook` events.
- **The timeout hook table** (module `Hooks`): `rt_TT_thread_timeout_sethook`
  and `rt_TT_thread_timeout_delhook` on a fixed-size array.
- **`rand`/`srand`** (module `Random`): the linear congruential generator.

Threads live in an arena (`seq<Thread>`) and are named by index. A list is
the sequence of the indices of the threads linked into it, head first. The
configuration modelled has `RT_THREAD_PRIORITY_MAX` = 32. Ticks are unbounded
naturals.

Where the design notes and the code disagree, the model follows the code.
The design notes say a TT thread's registry entry stays after it exits.
`rt_thread_exit` unlinks it (src/thread.c:111), and so does `Kernel.Scheduler.Exit`.
The design notes also say a TT thread that yields with time slice left is next
due exactly one period later. The catch-up loop of `rt_list_TT_thread_insert`
(Core code/src/scheduler.c, lines 560-563) skips whole periods when the yield
comes a full period or more after the activation began. `Queues.NextActivationSpec`
states the code's condition: one period later exactly when the activation has
begun and less than one period has passed.

## Model

| member | source | states |
|---|---|---|
| Admission.GetGcd | src/thread.c:951-961 | the loop returns Euclid's gcd of its two inputs; its invariant is that the gcd of the pair it holds never changes |
| Admission.GcdIsGreatestCommonDivisor | src/thread.c:951-961 | when either input is non-zero, the result divides both, and every common divisor divides it and is no larger |
| Admission.GcdPositive | src/thread.c:951-961 | the result is positive when either input is, so the collision test never reduces modulo 0 |
| Admission.GcdZero | src/thread.c:951-961 | gcd(x, 0) = x and gcd(0, x) = x |
| Admission.GcdSymmetric | src/thread.c:951-961 | the order of the two periods does not change the gcd |
| Admission.Bezout | src/thread.c:951-961 | the gcd is an integer combination of the two periods |
| Admission.CRem | src/thread.c:987 | C's `%` on signed operands: the remainder is below the divisor in magnitude, has the dividend's sign, and differs from the dividend by a multiple of the divisor |
| Admission.NormalisedRemainder | src/thread.c:987-989 | C's remainder, plus the gcd once when it is negative, is the mathematical remainder in [0, g) |
| Admission.CollisionCheck | src/thread.c:971-1004 | the loop answers true exactly when some registered thread collides with the new one in one of the two directions; so it answers false on an empty registry |
| Admission.PairCollidesSymmetric | src/thread.c:987-1001 | the two clauses swap when the threads swap, so the collision relation is symmetric |
| Admission.AdmissionOrderIndependent | src/thread.c:971-1004 | testing b against a registry holding a gives the same verdict as testing a against a registry holding b |
| Admission.OverlapIsDetected | src/thread.c:971-1004 | if any activation of the new thread overlaps any activation of a registered one (one starts at most budget ticks after the other's start; the window is closed, as the `<=` at src/thread.c:990 and 998 makes it), the test reports a collision |
| Admission.CollisionHasOverlap | src/thread.c:971-1004 | every collision the test reports is witnessed by two overlapping activations |
| Admission.CollidesIffOverlap | src/thread.c:971-1004 | the test reports a collision exactly when two activations can overlap |
| Admission.FirstActivation | src/thread.c:1057-1059 | the first activation is at or after now and in phase with epoch + offset modulo the period; it is less than one period after now when offset < cycle |
| Priority.NarrowMasksRoundTrip | src/thread.c:326 | with at most 32 levels, `1 << prio` for prio < 32 fits 32 bits and decodes back to prio |
| Priority.WideMasksRoundTrip | src/thread.c:322-324 | with more than 32 levels, the group bit fits 32 bits, the bit within the group fits a byte, and together they decode back to any priority below 256 |
| Priority.PriorityMasksRoundTrip | src/thread.c:319-327 | in the configured kernel every BE priority gets a non-zero mask that decodes back to it |
| Threads.WithState | src/thread.c:790 | `s \| (stat & ~RT_THREAD_STAT_MASK)` has state s and keeps every other flag bit |
| Threads.Inc32 | src/thread.c:317 | the running-TT count plus one, modulo 2^32 |
| Threads.Dec32 | src/thread.c:114 | the running-TT count minus one, modulo 2^32 |
| Threads.CountRoundTrip | src/thread.c:114 | the decrement at exit undoes the increment at startup (src/thread.c:317), and the other way round, wrap-around included |
| Threads.InitGuardAdmitsOverflow | src/thread.c:170 | the written guard admits a BE thread at RT_THREAD_PRIORITY_MAX, whose `1 << 32` does not fit the 32-bit mask |
| Threads.BestEffortPriorityFits | src/thread.c:170 | the corrected BE guard admits only priorities the written guard admits, and each of them gets a 32-bit mask that decodes back to it |
| Lists.Without | src/thread.c:832 | unlinking a node from a list leaves exactly the other entries, and no longer list |
| Lists.WithoutCount | src/thread.c:832 | unlinking takes out every copy of the node and keeps the count of every other entry |
| Lists.NoDupWithout | src/thread.c:832 | unlinking keeps a list free of duplicates |
| Lists.MoveKeeps | src/thread.c:583-591 | moving a node of a list without duplicates to the back (or the front) keeps exactly the same entries, each once |
| Queues.InsertPos | src/thread.c:535 | the insertion point `rt_list_TT_thread_insert` (Core code/src/scheduler.c, lines 574-595) finds follows every leading entry due no later than the new thread and precedes the first entry due later |
| Queues.InsertByStartSorted | src/thread.c:535 | linking a TT thread in at its place (Core code/src/scheduler.c, lines 556-626) keeps the TT list sorted by activation time |
| Queues.InsertByStartPlace | src/thread.c:535 | the TT list gains exactly the new thread; every entry due no later than it keeps its position, so among threads due at the same tick the newcomer goes last (the search stops at the first later entry, Core code/src/scheduler.c line 589) |
| Queues.InsertByStartCount | src/thread.c:535 | the TT list gains exactly one entry, and stays free of duplicates when the thread was not linked |
| Queues.WithoutKeepsOrder | src/thread.c:519-522 | unlinking a thread's skip-list nodes keeps the TT list sorted |
| Queues.HeadIsEarliest | src/thread.c:562 | the head of a sorted TT list, whose time `get_first_TT_Thread_start_time` returns, is due no later than any thread in it |
| Queues.CatchUp | src/thread.c:535 | the catch-up loop of `rt_list_TT_thread_insert` (Core code/src/scheduler.c, lines 560-563) yields an activation at or after now, in phase with the old one, unchanged if not in the past, and otherwise the first one at or after now |
| Queues.NextActivationSpec | src/thread.c:525-528 | a TT thread that yields within the activation it has begun is next due one period later; one whose activation is still ahead keeps it; the new time is in phase with the old one and no activation at or after now is skipped |
| Hooks.SetHook | src/thread.c:1081-1103 | the hook goes into the lowest empty slot with RT_EOK and no other slot changes; with no empty slot, -RT_EFULL and the table unchanged |
| Hooks.DelHook | src/thread.c:1113-1135 | the lowest slot holding the hook is emptied with RT_EOK and no other slot changes; if no slot holds it, -RT_ENOSYS and the table unchanged |
| Hooks.SetThenDelHook | src/thread.c:1081-1135 | registering a new hook in a table with room, then deleting it, gives back the original table |
| Hooks.SetTwiceDelOnce | src/thread.c:1081-1135 | slots are matched by value: a hook registered twice takes two slots, and one delete leaves it registered |
| Hooks.HookTable.constructor | src/thread.c:35 | the static table starts with every slot RT_NULL |
| Hooks.HookTable.Set | src/thread.c:1081-1103 | the loop leaves the array and return code that SetHook describes |
| Hooks.HookTable.Del | src/thread.c:1113-1135 | the loop leaves the array and return code that DelHook describes |
| Kernel.HookEventsInSlotOrder | src/thread.c:546-553 | the hook loop calls each registered hook once per slot it occupies, in slot order, and nothing else |
| Kernel.Scheduler.RunTimeoutHooks | src/thread.c:546-553 | the loop appends exactly those calls to the trace |
| Invariants.Inserted | src/thread.c:840 | the record `rt_schedule_insert_thread` leaves is READY; a TT thread's activation time is at or after now and in phase with its old one |
| Invariants.Removed | src/thread.c:791 | a TT thread removed by `rt_schedule_remove_thread` has no time slice left in this period (Core code/src/scheduler.c line 455) |
| Invariants.Started | src/thread.c:309-333 | a started thread is SUSPEND at its initial priority, and a BE thread's masks decode back to that priority |
| Invariants.Reprioritized | src/thread.c:699-740 | the thread has the new priority and its old state; for a BE level the masks decode back to the new priority |
| Invariants.RequeueMovesToBack | src/thread.c:707-722 | removing a READY BE thread and inserting it again moves it to the back of its ready list, with the same threads in the list |
| Invariants.AddKeeps | src/thread.c:138-232 | a new INIT record, linked nowhere, keeps every list consistent |
| Invariants.UpdateKeeps | src/thread.c:309-333 | rewriting one record keeps the lists consistent if it keeps its kind, its ready list's priority, its TT list time, and CLOSE while defunct |
| Invariants.RemoveTListKeeps | src/thread.c:832 | unlinking a tlist node keeps the lists consistent and every other thread settled |
| Invariants.RemoveSkipNodesKeeps | src/thread.c:871-874 | unlinking the skip-list nodes keeps the TT list sorted and every other thread settled |
| Invariants.ReadyLinkKeeps | src/thread.c:840 | linking a BE thread into its ready list, at either end, keeps the ready table consistent and queues the thread |
| Invariants.TTLinkKeeps | src/thread.c:535 | linking a TT thread in by activation time keeps the TT list consistent and queues the thread |
| Invariants.RegistryRemoveKeeps | src/thread.c:111 | dropping a thread from the registry keeps it consistent |
| Invariants.DefunctAddKeeps | src/thread.c:115 | putting a closed thread in front of the defunct list keeps it consistent |
| Kernel.Scheduler.constructor | src/thread.c:32-39 | the scheduler's lists start empty (`rt_system_scheduler_init`), no thread runs, and the lists are consistent |
| Kernel.Scheduler.CreateThread | src/thread.c:138-232 | a new INIT BE record with the given priority and time slice is appended and linked nowhere; nothing changes when allocation fails |
| Kernel.Scheduler.TTCreate | src/thread.c:1022-1066 | a colliding request or a failed allocation creates nothing; otherwise a TT record with the timing triple and its first activation is appended and registered at the registry's tail |
| Kernel.Scheduler.SetCurrent | src/thread.c:38 | the thread the decision engine picks for `rt_current_thread`, always a READY one, becomes current; the time slice refill of `rt_schedule` is `CallScheduler` |
| Invariants.RefillOnlyRefills | src/thread.c:135 | `rt_schedule` (Core code/src/scheduler.c, lines 248-256) changes only the current TT thread's time slice: one used up becomes `init_tick`, one with ticks left is kept, and every other record and field stays as it was |
| Queues.InsertByStartSameStarts | src/thread.c:535 | where a thread is linked into the TT list depends only on the activation times of the threads |
| Invariants.RefilledKeepsOrder | src/thread.c:135 | refilling the current thread's time slice leaves the TT list order as it was |
| Kernel.Scheduler.CallScheduler | src/thread.c:135 | a call of `rt_schedule` is recorded in the trace, the threads are as `Refilled` leaves them (a current TT thread without time slice gets `init_tick` again), the lists do not change and stay consistent |
| Kernel.Scheduler.RemoveTList | src/thread.c:832 | the tlist node leaves the ready list of the thread's priority and the defunct list, and no other list changes |
| Kernel.Scheduler.RemoveSkipNodes | src/thread.c:519-522 | the loop over the skip-list levels takes the TT thread out of the TT list and changes nothing else |
| Kernel.Scheduler.Unlink | src/thread.c:867-879 | a TT thread leaves the TT list, a BE thread its ready list, and it is in neither afterwards |
| Kernel.Scheduler.Reinsert | src/thread.c:867-882 | a thread is unlinked and inserted again as READY: a BE thread goes to the back of its ready list, a TT thread in by activation time |
| Kernel.Scheduler.Postpone | src/thread.c:519-533 | a TT thread leaves the TT list and gets its new record while it is out of it |
| Kernel.Scheduler.TTInsert | src/thread.c:535 | `rt_list_TT_thread_insert`: the activation time is caught up to now, the thread is linked into the TT list by activation time, and the cached first start time is refreshed |
| Kernel.Scheduler.ScheduleInsert | src/thread.c:840 | `rt_schedule_insert_thread`: the thread becomes READY; a TT thread goes into the TT list, a BE thread to the tail of its ready list |
| Kernel.Scheduler.ScheduleRemove | src/thread.c:98 | `rt_schedule_remove_thread`: a TT thread leaves the TT list with its time slice cleared and the cache refreshed; a BE thread's tlist node is unlinked |
| Kernel.Scheduler.Suspend | src/thread.c:768-801 | a thread that is not READY gets -RT_ERROR and nothing changes; otherwise it is SUSPEND with its other flag bits kept, its timer stopped, and it is off the scheduler's lists |
| Kernel.Scheduler.Resume | src/thread.c:811-844 | a thread that is not SUSPEND gets -RT_ERROR and nothing changes; otherwise its timer is stopped and it is inserted as READY |
| Kernel.Scheduler.Startup | src/thread.c:300-345 | the thread gets its initial priority and masks, a TT thread is counted, it is resumed, and the scheduler is called (with its refill) for a BE thread while a thread runs |
| Kernel.Scheduler.ChangePriority | src/thread.c:699-740 | a READY thread is removed, reprioritized and inserted again; any other thread is only reprioritized |
| Kernel.Scheduler.Expire | src/thread.c:853-882 | the error becomes -RT_ETIMEOUT and the thread is unlinked and inserted as READY |
| Kernel.Scheduler.Timeout | src/thread.c:853-886 | the error becomes -RT_ETIMEOUT, the thread is unlinked and inserted as READY, and the scheduler is called, refilling a current TT thread without time slice |
| Kernel.Scheduler.Close | src/thread.c:97-103 | the exiting thread leaves its lists with its timer stopped and its state CLOSE |
| Kernel.Scheduler.Exit | src/thread.c:86-136 | the thread is closed; a TT thread is dropped from the registry, uncounted and put on the defunct list; a BE thread goes to the defunct list unless it is detached; the scheduler is called, which gives an exiting TT thread its `init_tick` back |
| Kernel.Scheduler.YieldTTEarly | src/thread.c:515-540 | a TT thread with time slice left is unlinked, moved one period on if its activation has begun, cleared of its time slice and linked in again at its next activation |
| Kernel.Scheduler.YieldTTEarlyAndSchedule | src/thread.c:515-540 | the early yield followed by `rt_schedule`: the thread is at its next activation with its full `init_tick` time slice again, not the cleared one |
| Kernel.Scheduler.YieldToTT | src/thread.c:562-580 | a BE thread yielding while a TT thread is due goes to the front of its ready list and becomes READY |
| Kernel.Scheduler.YieldRoundRobin | src/thread.c:583-598 | a READY BE thread goes to the back of its ready list |
| Kernel.Scheduler.Yield | src/thread.c:497-605 | each of the five outcomes of `rt_thread_yield`: the TT reschedule (with the time slice refilled to `init_tick`), the TT overrun (hooks in slot order, then exit), the BE front insertion while a TT thread is due, the BE round robin, or no change at all |
| Random.LcgStep | src/thread.c:943 | one generator step stays within 32 bits |
| Random.RandValue | src/thread.c:944 | the value handed out is below 32768 |
| Random.Lcg.Rand | src/thread.c:941-945 | `rand` advances the state by one step and returns a value below 32768 |
| Random.Lcg.Srand | src/thread.c:937-940 | `srand` sets the state to the seed |

## Left out

- Interrupt masking (`rt_hw_interrupt_disable`/`enable`) and critical sections: the model is sequential.
- Timers: `rt_timer_init`/`stop`/`detach` are modelled only as the `timerActive` flag of a thread. No modelled operation arms a timer (`rt_thread_sleep` and `rt_thread_delay` are left out), so the flag is only ever cleared.
- Object management: allocation is the `allocOk` parameter of `CreateThread` and `TTCreate`.
- The system-object and cleanup test of `rt_thread_exit` is the `detach` parameter of `Exit`.
- Stacks and context switching are left out: `rt_hw_stack_init`, the stack fill, and the switch `rt_schedule` makes.
- `rt_schedule` is a `Schedule` event plus its time slice refill; the thread it picks is `SetCurrent`, which only ever picks a READY thread. The tick handler that counts a running TT thread's time slice down is left out.
- The ready bitmap (`rt_thread_ready_priority_group`, `rt_thread_ready_table`) is left out. The priority attributes it is built from are modelled and proved to decode back to the priority.
- The upper levels of the TT skip list and their random promotion are left out; only the bottom level, which fixes the order, is modelled. So is the generator step `rand()` takes on every TT insertion (Core code/src/scheduler.c line 623): `Kernel.Scheduler.TTInsert` does not advance `Random.Lcg`.
- The cached first TT start time when the TT list is empty: the code reads the list head itself, and the model uses 0, the value the scheduler starts with.
- Tick arithmetic is unbounded: 32-bit wrap-around of activation times and of the global time is not modelled.
- The signed `rt_base_t` conversions of the collision test are not modelled; operands are taken as mathematical integers.
- `rt_thread_suspend_hook`, `rt_thread_resume_hook`, `rt_thread_inited_hook` and their sethook functions are foreign callbacks and are left out.
- `rt_thread_delete`, `rt_thread_detach`, `rt_thread_init`, `rt_thread_self`, `rt_thread_find`, `rt_thread_sleep`/`delay`/`mdelay`, and the STARTUP and CLOSE commands of `rt_thread_control`: outside the modelled core.
- Random.Lcg.Rand: `unsigned long` is taken to be 32 bits wide.
- Kernel.Scheduler.CreateThread: requires a priority below RT_THREAD_PRIORITY_MAX, the corrected guard of the finding below, where the code asserts `<=`.
- Kernel.Scheduler.TTCreate: requires a positive period and an epoch not after now; the code divides by the period and subtracts the epoch from now as unsigned numbers.
- Kernel.Scheduler.Yield: requires a TT current thread to be READY at RT_THREAD_PRIORITY_MAX, as the code asserts for the priority and the scheduler guarantees for the state.
- Kernel.Scheduler.ChangePriority: requires a priority below 256 (the `rt_uint8_t` argument), and below RT_THREAD_PRIORITY_MAX for a started BE thread, whose shift `1 << prio` the code does not guard.
- Invariants.Reprioritized: for a priority of 32 or more the mask is the unbounded 2^prio, where the code's 32-bit shift is undefined.
- Kernel.Scheduler.Timeout: requires a thread that is neither INIT nor CLOSE, the only threads whose timer can fire.
- Kernel.Scheduler.Exit: requires a current thread that is not CLOSE; only a running thread calls `rt_thread_exit`.
- Kernel.Scheduler.Close: requires a started thread that is not CLOSE, which holds for the thread `Exit` closes.

## Findings

| source | as written | input that shows it | evidently intended | confidence | as-written member | corrected member |
|---|---|---|---|---|---|---|
| src/thread.c:170 | `RT_ASSERT(priority <= RT_THREAD_PRIORITY_MAX)` also admits a best-effort thread at RT_THREAD_PRIORITY_MAX | `rt_thread_create(..., priority = 32, ...)` with 32 levels: startup computes `1L << 32` (src/thread.c:326), which overflows the 32-bit `number_mask`, and the ready list index 32 is past `rt_thread_priority_table` | a best-effort thread has a priority below RT_THREAD_PRIORITY_MAX; only TT threads use the maximum | not executed | Threads.InitGuardAdmitsOverflow | Threads.BestEffortPriorityFits |
