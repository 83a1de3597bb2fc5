/**
 * The thread lifecycle of the kernel: the global state thread.c works on
 * (the thread records, the best-effort ready lists, the time-triggered list,
 * the registry of created TT threads, the defunct list, the running-TT count,
 * the current thread) and the operations that move a thread between INIT,
 * READY, SUSPEND and CLOSE while keeping those lists consistent.
 *
 * Threads live in an arena and are named by their index; a list is the
 * sequence of the indices of the threads linked into it, head first.
 */
module Kernel {
  import opened Wrappers
  import opened Admission
  import opened Priority
  import opened Threads
  import opened Lists
  import opened Queues
  import opened Hooks
  import opened Invariants

  /** What the rest of the system observes of these operations: a call of the
      scheduler's decision engine, or a call of one timeout hook. */
  datatype Event = Schedule | TimeoutHook(hook: nat)

  /** The calls the hook loop of rt_thread_yield makes for a table holding s:
      one per slot that is not RT_NULL, slot by slot. */
  function HookEvents(s: seq<nat>): seq<Event>
    decreases |s|
  {
    if s == [] then []
    else HookEvents(s[..|s| - 1]) + (if s[|s| - 1] != NULL then [TimeoutHook(s[|s| - 1])] else [])
  }

  /** Every registered hook is called exactly once per slot it occupies, in
      slot order, and nothing else is called. */
  lemma {:induction false} HookEventsInSlotOrder(s: seq<nat>)
    ensures |HookEvents(s)| == |Without(s, NULL)|
    ensures forall i :: 0 <= i < |HookEvents(s)| ==> HookEvents(s)[i] == TimeoutHook(Without(s, NULL)[i])
  {
    if s != [] {
      var init, last := s[..|s| - 1], s[|s| - 1];
      HookEventsInSlotOrder(init);
      var w := Without(init, NULL);
      var lastCalls := if last == NULL then [] else [last];
      assert s == init + [last];
      WithoutAppend(init, [last], NULL);
      assert [last][1..] == [];
      assert Without([last], NULL) == lastCalls;
      var e := HookEvents(s);
      assert e == HookEvents(init) + (if last != NULL then [TimeoutHook(last)] else []);
      forall i | 0 <= i < |e| ensures e[i] == TimeoutHook((w + lastCalls)[i]) {
        if i < |w| {
          assert e[i] == HookEvents(init)[i];
        }
      }
    }
  }

  class Scheduler {
    /** The thread control blocks. */
    var threads: seq<Thread>
    /** rt_thread_priority_table. */
    var ready: seq<seq<nat>>
    /** The bottom level of rt_TT_thread_list. */
    var ttList: seq<nat>
    /** rt_first_TT_Thread_start_time: the activation time of the TT list's head. */
    var firstTTStart: nat
    /** rt_created_TT_thread_list, linked through time_collision_list. */
    var registry: seq<nat>
    /** rt_thread_defunct. */
    var defunct: seq<nat>
    /** rt_running_TT_Thread_count, a 32-bit counter. */
    var runningTT: nat
    /** rt_current_thread. */
    var current: Option<nat>
    /** The scheduler calls and timeout-hook calls made so far. */
    var trace: seq<Event>
    /** TT_thread_timeout_hook_list. */
    const hooks: HookTable

    /** The lists are well formed with respect to the thread records. */
    ghost predicate Linked()
      reads this`threads, this`ready, this`ttList, this`registry, this`defunct, this`runningTT, this`current
    {
      ListsOk(threads, ready, ttList, registry, defunct) && runningTT < 0x1_0000_0000 &&
      (current.Some? ==> current.value < |threads| && StateOf(threads[current.value].stat) != INIT)
    }

    /** The cached first activation time is the TT list head's. */
    ghost predicate CacheOk()
      reads this`threads, this`ready, this`ttList, this`registry, this`defunct, this`runningTT, this`current, this`firstTTStart
      requires Linked()
    {
      firstTTStart == HeadStart(ttList, threads)
    }

    /** The state between two operations: the lists are well formed, a started
        thread is READY exactly when it is queued, and the cache is fresh. */
    ghost predicate Valid()
      reads this`threads, this`ready, this`ttList, this`registry, this`defunct, this`runningTT, this`current, this`firstTTStart
    {
      Linked() && ReadyExact(threads, ready, ttList) && CacheOk()
    }

    /** Thread id is linked into none of the lists its nodes can be in. */
    ghost predicate Unlinked(id: nat)
      reads this`ready, this`ttList, this`defunct
    {
      (forall p :: 0 <= p < |ready| ==> id !in ready[p]) && id !in ttList && id !in defunct
    }

    /** The scheduler as rt_system_scheduler_init leaves it, with a hook table of
        the given number of slots. */
    constructor (hookSlots: nat)
      ensures Valid() && fresh(hooks) && hooks.slots.Length == hookSlots
      ensures forall i :: 0 <= i < hookSlots ==> hooks.slots[i] == NULL
      ensures threads == [] && registry == [] && defunct == [] && ttList == [] && trace == []
      ensures current == None && runningTT == 0
      ensures |ready| == PRIORITY_MAX && forall p :: 0 <= p < |ready| ==> ready[p] == []
    {
      var empty: seq<seq<nat>> := seq(PRIORITY_MAX, p => []);
      EmptyOk(empty);
      threads := [];
      ready := empty;
      ttList := [];
      firstTTStart := 0;
      registry := [];
      defunct := [];
      runningTT := 0;
      current := None;
      trace := [];
      hooks := new HookTable(hookSlots);
    }

    // -------------------------------------------------------------------------
    // Creation

    /** rt_thread_create and _rt_thread_init: a new best-effort thread in state
        INIT, linked nowhere; nothing is created when the object or its stack
        cannot be allocated. */
    method CreateThread(priority: nat, tick: nat, allocOk: bool) returns (r: Option<nat>)
      requires Valid() && BestEffortPriority(priority)
      modifies this
      ensures Valid()
      ensures r.None? <==> !allocOk
      ensures r.None? ==> unchanged(this)
      ensures r.Some? ==> r.value == old(|threads|) && threads == old(threads) + [InitialThread(priority, tick)]
      ensures unchanged(`ready, `ttList, `firstTTStart, `registry, `defunct, `runningTT, `current, `trace)
    {
      if !allocOk {
        return None;
      }
      var t := InitialThread(priority, tick);
      var ts := threads;
      AddKeeps(ts, ready, ttList, registry, defunct, t);
      r := Some(|ts|);
      threads := ts + [t];
    }

    /** rt_TT_thread_create: a request whose timing collides with a created TT
        thread is refused; otherwise a TT thread is created at priority
        RT_THREAD_PRIORITY_MAX with the budget as its time slice, given its first
        activation, and appended to the registry. */
    method TTCreate(cycle: nat, offset: nat, maxExecTime: nat, now: nat, epoch: nat, allocOk: bool)
      returns (r: Option<nat>)
      requires Valid() && cycle > 0 && epoch <= now
      modifies this
      ensures Valid()
      ensures r.Some? <==> allocOk && !Collides(old(RegistryParams(threads, registry)), TTParams(cycle, offset, maxExecTime))
      ensures r.None? ==> unchanged(this)
      ensures r.Some? ==> r.value == old(|threads|)
      ensures r.Some? ==> threads == old(threads) + [InitialThread(PRIORITY_MAX, maxExecTime).(
                isTT := true, cycle := cycle, offset := offset, maxExecTime := maxExecTime,
                startTime := FirstActivation(now, epoch, cycle, offset))]
      ensures r.Some? ==> registry == old(registry) + [r.value]
      ensures unchanged(`ready, `ttList, `firstTTStart, `defunct, `runningTT, `current, `trace)
    {
      var collides := CollisionCheck(RegistryParams(threads, registry), cycle, offset, maxExecTime);
      if collides || !allocOk {
        return None;
      }
      var t := InitialThread(PRIORITY_MAX, maxExecTime).(
        isTT := true, cycle := cycle, offset := offset, maxExecTime := maxExecTime,
        startTime := FirstActivation(now, epoch, cycle, offset));
      var ts, reg := threads, registry;
      AddKeeps(ts, ready, ttList, reg, defunct, t);
      var id := |ts|;
      assert id !in reg;
      NoDupSnoc(reg, id);
      threads, registry := ts + [t], reg + [id];
      r := Some(id);
    }

    /** The decision engine's choice of the running thread; it only ever picks a
        thread that is READY. */
    method SetCurrent(id: nat)
      requires Valid() && id < |threads| && StateOf(threads[id].stat) == READY
      modifies this
      ensures Valid() && current == Some(id)
      ensures unchanged(`threads, `ready, `ttList, `firstTTStart, `registry, `defunct, `runningTT, `trace)
    {
      current := Some(id);
    }

    // -------------------------------------------------------------------------
    // Primitives: field writes and list links

    /** rt_schedule(): the call is recorded, and a current TT thread whose time
        slice is used up gets init_tick ticks again; the choice it makes is
        SetCurrent. */
    method CallScheduler()
      requires Valid()
      modifies this
      ensures Valid() && trace == old(trace) + [Schedule]
      ensures threads == Refilled(old(threads), current)
      ensures unchanged(`ready, `ttList, `firstTTStart, `registry, `defunct, `runningTT, `current)
    {
      if current.Some? && threads[current.value].isTT && threads[current.value].remainingTick == 0 {
        var id := current.value;
        var t := threads[id];
        assert Settled(threads, ready, ttList, id);
        SetThread(id, t.(remainingTick := t.initTick));
        Settle(threads, ready, ttList, id);
      }
      trace := trace + [Schedule];
    }


    /** Writes to the fields of one thread control block. */
    method SetThread(id: nat, t: Thread)
      requires Linked() && ReadyExactBut(threads, ready, ttList, id) && id < |threads| && ThreadOk(t)
      requires t.isTT == threads[id].isTT
      requires StateOf(threads[id].stat) != INIT ==> StateOf(t.stat) != INIT
      requires forall p :: 0 <= p < |ready| && id in ready[p] ==> t.currentPriority == p
      requires id in ttList ==> t.startTime == threads[id].startTime
      requires id in defunct ==> StateOf(t.stat) == CLOSE
      modifies this
      ensures Linked() && ReadyExactBut(threads, ready, ttList, id)
      ensures threads == old(threads)[id := t]
      ensures old(CacheOk()) ==> CacheOk()
      ensures unchanged(`ready, `ttList, `firstTTStart, `registry, `defunct, `runningTT, `current, `trace)
    {
      var ts := threads;
      UpdateKeeps(ts, ready, ttList, registry, defunct, id, t);
      threads := ts[id := t];
    }

    /** rt_list_remove(&thread->tlist): the node leaves whichever list holds it,
        a ready list for a best-effort thread or the defunct list. */
    method RemoveTList(id: nat)
      requires Linked() && ReadyExactBut(threads, ready, ttList, id) && id < |threads|
      modifies this
      ensures unchanged(`threads, `ttList, `firstTTStart, `registry, `runningTT, `current, `trace)
      ensures Linked() && ReadyExactBut(threads, ready, ttList, id)
      ensures ready == ReadyWithout(old(ready), threads[id], id) && defunct == Without(old(defunct), id)
      ensures (forall p :: 0 <= p < |ready| ==> id !in ready[p]) && id !in defunct
      ensures !threads[id].isTT ==> id !in ttList
      ensures old(CacheOk()) ==> CacheOk()
    {
      var ts, rd, df := threads, ready, defunct;
      RemoveTListKeeps(ts, rd, ttList, registry, df, id);
      ready, defunct := ReadyWithout(rd, ts[id], id), Without(df, id);
    }

    /** The loop over the skip-list levels: a TT thread leaves the TT list. The
        cached first activation time is not refreshed. */
    method RemoveSkipNodes(id: nat)
      requires Linked() && ReadyExactBut(threads, ready, ttList, id) && id < |threads| && threads[id].isTT
      modifies this
      ensures Linked() && ReadyExactBut(threads, ready, ttList, id)
      ensures ttList == Without(old(ttList), id)
      ensures id !in ttList && forall p :: 0 <= p < |ready| ==> id !in ready[p]
      ensures unchanged(`threads, `ready, `firstTTStart, `registry, `defunct, `runningTT, `current, `trace)
    {
      var ts, tt := threads, ttList;
      RemoveSkipNodesKeeps(ts, ready, tt, registry, defunct, id);
      ttList := Without(tt, id);
    }

    /** The unlinking step of rt_thread_timeout: a TT thread's skip-list nodes
        or a best-effort thread's tlist node. */
    method Unlink(id: nat)
      requires Linked() && ReadyExactBut(threads, ready, ttList, id) && id < |threads|
      modifies this
      ensures unchanged(`threads, `firstTTStart, `registry, `runningTT, `current, `trace)
      ensures Linked() && ReadyExactBut(threads, ready, ttList, id)
      ensures (forall p :: 0 <= p < |ready| ==> id !in ready[p]) && id !in ttList
      ensures ready == ReadyWithout(old(ready), threads[id], id)
      ensures ttList == TTWithout(old(ttList), threads[id], id)
      ensures defunct == if threads[id].isTT then old(defunct) else Without(old(defunct), id)
      ensures !threads[id].isTT ==> (old(CacheOk()) ==> CacheOk())
    {
      if threads[id].isTT {
        RemoveSkipNodes(id);
      } else {
        RemoveTList(id);
      }
    }

    /** rt_list_TT_thread_insert: an activation time already in the past is
        moved forward by whole periods, then the thread is linked into the TT
        list after every thread due no later than it, and the cached first
        activation time is refreshed. */
    method TTInsert(id: nat, now: nat)
      requires Linked() && ReadyExactBut(threads, ready, ttList, id)
      requires id < |threads| && threads[id].isTT && StateOf(threads[id].stat) != INIT && id !in ttList
      modifies this
      ensures threads == old(threads)[id := old(threads[id]).(
                startTime := CatchUp(old(threads[id].startTime), old(threads[id].cycle), now))]
      ensures Linked() && CacheOk() && ReadyExactBut(threads, ready, ttList, id)
      ensures Queued(threads[id], id, ready, ttList)
      ensures ttList == InsertByStart(old(ttList), threads, id)
      ensures unchanged(`ready, `registry, `defunct, `runningTT, `current, `trace)
    {
      var t := threads[id];
      var start := t.startTime;
      while start < now
        invariant CatchUp(start, t.cycle, now) == CatchUp(t.startTime, t.cycle, now)
        decreases now - start
      {
        start := start + t.cycle;
      }
      SetThread(id, t.(startTime := start));
      var ts, tt := threads, ttList;
      TTLinkKeeps(ts, ready, tt, registry, defunct, id);
      var tt' := InsertByStart(tt, ts, id);
      ttList := tt';
      firstTTStart := HeadStart(tt', ts);
    }

    /** rt_schedule_insert_thread: the thread becomes READY (its other flag bits
        kept); a TT thread goes into the TT list, a best-effort thread to the
        tail of the ready list of its priority. */
    method ScheduleInsert(id: nat, now: nat)
      requires Linked() && ReadyExactBut(threads, ready, ttList, id)
      requires id < |threads| && StateOf(threads[id].stat) != INIT && Unlinked(id)
      requires !threads[id].isTT ==> CacheOk()
      modifies this
      ensures Valid()
      ensures threads == old(threads)[id := Inserted(old(threads[id]), now)]
      ensures ready == ReadyWith(old(ready), old(threads[id]), id)
      ensures ttList == TTWith(old(ttList), threads, id)
      ensures unchanged(`registry, `defunct, `runningTT, `current, `trace)
    {
      var t := threads[id];
      var t' := t.(stat := WithState(t.stat, READY));
      SetThread(id, t');
      if t.isTT {
        TTInsert(id, now);
        assert threads[id] == Inserted(t, now);
        UpdateTwice(old(threads), id, t', Inserted(t, now));
      } else {
        var ts, rd := threads, ready;
        var cp := t.currentPriority;
        NoDupSnoc(rd[cp], id);
        ReadyLinkKeeps(ts, rd, ttList, registry, defunct, id, rd[cp] + [id]);
        ready := rd[cp := rd[cp] + [id]];
      }
      Settle(threads, ready, ttList, id);
    }

    /** rt_schedule_remove_thread: a TT thread leaves the TT list, gets its time
        slice cleared (its activation is over) and the cached first activation
        time is refreshed; a best-effort thread's tlist node is unlinked. */
    method ScheduleRemove(id: nat)
      requires Linked() && CacheOk() && ReadyExactBut(threads, ready, ttList, id) && id < |threads|
      modifies this
      ensures Linked() && CacheOk() && ReadyExactBut(threads, ready, ttList, id)
      ensures (forall p :: 0 <= p < |ready| ==> id !in ready[p]) && id !in ttList
      ensures threads == old(threads)[id := Removed(old(threads[id]))]
      ensures ready == ReadyWithout(old(ready), old(threads[id]), id)
      ensures ttList == TTWithout(old(ttList), old(threads[id]), id)
      ensures defunct == (if old(threads[id].isTT) then old(defunct) else Without(old(defunct), id))
      ensures unchanged(`registry, `runningTT, `current, `trace)
    {
      var t := threads[id];
      if t.isTT {
        RemoveSkipNodes(id);
        SetThread(id, t.(remainingTick := 0));
        firstTTStart := HeadStart(ttList, threads);
      } else {
        RemoveTList(id);
        UpdateSame(old(threads), id);
      }
    }

    // -------------------------------------------------------------------------
    // The lifecycle operations of thread.c

    /** rt_thread_suspend: a thread that is not READY is refused with
        -RT_ERROR and nothing changes; otherwise it becomes SUSPEND (its other
        flag bits kept), its timer is stopped and it leaves the scheduler. */
    method Suspend(id: nat) returns (err: Err)
      requires Valid() && id < |threads|
      modifies this
      ensures Valid()
      ensures err == (if StateOf(old(threads[id].stat)) == READY then EOk else EError)
      ensures err == EError ==> unchanged(this)
      ensures err == EOk ==> threads == old(threads)[id := Removed(old(threads[id]).(
                stat := WithState(old(threads[id].stat), SUSPEND), timerActive := false))]
      ensures err == EOk ==> ready == ReadyWithout(old(ready), old(threads[id]), id)
      ensures err == EOk ==> ttList == TTWithout(old(ttList), old(threads[id]), id)
      ensures unchanged(`defunct, `registry, `runningTT, `current, `trace)
    {
      var t := threads[id];
      if StateOf(t.stat) != READY {
        return EError;
      }
      assert id !in defunct;
      var t' := t.(stat := WithState(t.stat, SUSPEND), timerActive := false);
      SetThread(id, t');
      ScheduleRemove(id);
      UpdateTwice(old(threads), id, t', Removed(t'));
      WithoutAbsent(old(defunct), id);
      Settle(threads, ready, ttList, id);
      err := EOk;
    }

    /** rt_thread_resume: a thread that is not SUSPEND is refused with
        -RT_ERROR and nothing changes; otherwise its tlist node is unlinked (it
        is in none of the modelled lists), its timer stopped, and it is inserted
        into the scheduler as READY. */
    method Resume(id: nat, now: nat) returns (err: Err)
      requires Valid() && id < |threads|
      modifies this
      ensures Valid()
      ensures err == (if StateOf(old(threads[id].stat)) == SUSPEND then EOk else EError)
      ensures err == EError ==> unchanged(this)
      ensures err == EOk ==> threads == old(threads)[id := Inserted(old(threads[id]).(timerActive := false), now)]
      ensures err == EOk ==> ready == ReadyWith(old(ready), old(threads[id]), id)
      ensures err == EOk ==> ttList == TTWith(old(ttList), threads, id)
      ensures unchanged(`defunct, `registry, `runningTT, `current, `trace)
    {
      var t := threads[id];
      if StateOf(t.stat) != SUSPEND {
        return EError;
      }
      assert id !in defunct && Settled(threads, ready, ttList, id);
      ReadyWithoutAbsent(ready, t, id);
      WithoutAbsent(defunct, id);
      RemoveTList(id);
      var t' := t.(timerActive := false);
      SetThread(id, t');
      ScheduleInsert(id, now);
      UpdateTwice(old(threads), id, t', Inserted(t', now));
      err := EOk;
    }

    /** rt_thread_startup: a thread in state INIT gets its current priority
        from its initial one (and, if best-effort, its bitmap attributes), is
        counted if it is a TT thread, is made SUSPEND and then resumed; the
        scheduler is called when a best-effort thread is started while a thread
        runs. */
    method Startup(id: nat, now: nat) returns (err: Err)
      requires Valid() && id < |threads| && StateOf(threads[id].stat) == INIT
      modifies this
      ensures Valid() && err == EOk
      ensures threads == (var ts := old(threads)[id := Inserted(Started(old(threads[id])).(timerActive := false), now)];
                          if old(current).Some? && !old(threads[id].isTT) then Refilled(ts, old(current)) else ts)
      ensures ready == ReadyWith(old(ready), Started(old(threads[id])), id)
      ensures ttList == TTWith(old(ttList), threads, id)
      ensures runningTT == if old(threads[id].isTT) then Inc32(old(runningTT)) else old(runningTT)
      ensures trace == old(trace) + if old(current).Some? && !old(threads[id].isTT) then [Schedule] else []
      ensures unchanged(`defunct, `registry, `current)
    {
      var t := threads[id];
      assert id !in defunct && id !in ttList && forall p :: 0 <= p < |ready| ==> id !in ready[p];
      var t' := Started(t);
      SetThread(id, t');
      Settle(threads, ready, ttList, id);
      if t.isTT {
        runningTT := Inc32(runningTT);
      }
      err := Resume(id, now);
      UpdateTwice(old(threads), id, t', Inserted(t'.(timerActive := false), now));
      if current.Some? && !t.isTT {
        CallScheduler();
      }
    }

    /** The priority change of rt_thread_control: a READY thread leaves the
        scheduler, gets the new priority and bitmap attributes, and is inserted
        again; any other thread only gets the new priority and attributes. The
        priority is passed as an rt_uint8_t. */
    method ChangePriority(id: nat, prio: nat, now: nat) returns (err: Err)
      requires Valid() && id < |threads| && prio < 0x100
      requires !threads[id].isTT && StateOf(threads[id].stat) != INIT ==> prio < PRIORITY_MAX
      modifies this
      ensures Valid() && err == EOk
      ensures StateOf(old(threads[id].stat)) == READY ==>
                threads == old(threads)[id := Inserted(Reprioritized(Removed(old(threads[id])), prio), now)] &&
                ready == ReadyWith(ReadyWithout(old(ready), old(threads[id]), id), Reprioritized(old(threads[id]), prio), id) &&
                ttList == TTWith(TTWithout(old(ttList), old(threads[id]), id), threads, id)
      ensures StateOf(old(threads[id].stat)) != READY ==>
                threads == old(threads)[id := Reprioritized(old(threads[id]), prio)] &&
                ready == old(ready) && ttList == old(ttList)
      ensures unchanged(`defunct, `registry, `runningTT, `current, `trace)
    {
      var t := threads[id];
      assert Settled(threads, ready, ttList, id);
      if StateOf(t.stat) == READY {
        assert id !in defunct;
        ScheduleRemove(id);
        WithoutAbsent(old(defunct), id);
        var t' := Reprioritized(Removed(t), prio);
        SetThread(id, t');
        ScheduleInsert(id, now);
        UpdateTwice(old(threads), id, Removed(t), t');
        UpdateTwice(old(threads), id, t', Inserted(t', now));
      } else {
        assert forall p :: 0 <= p < |ready| ==> id !in ready[p];
        SetThread(id, Reprioritized(t, prio));
        Settle(threads, ready, ttList, id);
      }
      err := EOk;
    }

    /** The list work of rt_thread_timeout: the thread is unlinked from where
        it is queued and inserted into the scheduler again as READY. */
    method Reinsert(id: nat, now: nat)
      requires Linked() && CacheOk() && ReadyExactBut(threads, ready, ttList, id)
      requires id < |threads| && StateOf(threads[id].stat) != INIT && id !in defunct
      modifies this
      ensures Valid()
      ensures threads == old(threads)[id := Inserted(old(threads[id]), now)]
      ensures ready == ReadyWith(ReadyWithout(old(ready), old(threads[id]), id), old(threads[id]), id)
      ensures ttList == TTWith(TTWithout(old(ttList), old(threads[id]), id), threads, id)
      ensures unchanged(`defunct, `registry, `runningTT, `current, `trace)
    {
      Unlink(id);
      WithoutAbsent(old(defunct), id);
      ScheduleInsert(id, now);
    }

    /** The work of rt_thread_timeout before its scheduler call: the error
        becomes -RT_ETIMEOUT and the thread is inserted again as READY. */
    method Expire(id: nat, now: nat)
      requires Valid() && id < |threads|
      requires StateOf(threads[id].stat) != INIT && StateOf(threads[id].stat) != CLOSE
      modifies this
      ensures Valid()
      ensures threads == old(threads)[id := Inserted(old(threads[id]).(error := ETimeout), now)]
      ensures ready == ReadyWith(ReadyWithout(old(ready), old(threads[id]), id), old(threads[id]), id)
      ensures ttList == TTWith(TTWithout(old(ttList), old(threads[id]), id), threads, id)
      ensures unchanged(`defunct, `registry, `runningTT, `current, `trace)
    {
      var t := threads[id];
      assert id !in defunct;
      var t' := t.(error := ETimeout);
      SetThread(id, t');
      Reinsert(id, now);
      UpdateTwice(old(threads), id, t', Inserted(t', now));
    }

    /** rt_thread_timeout: the thread's error becomes -RT_ETIMEOUT, it is
        unlinked (a TT thread from the TT list, a best-effort thread's tlist
        node) and inserted into the scheduler as READY, and the scheduler is
        called. The timer of a closed thread is detached, so it never fires. */
    method Timeout(id: nat, now: nat)
      requires Valid() && id < |threads|
      requires StateOf(threads[id].stat) != INIT && StateOf(threads[id].stat) != CLOSE
      modifies this
      ensures Valid()
      ensures threads == Refilled(old(threads)[id := Inserted(old(threads[id]).(error := ETimeout), now)], old(current))
      ensures ready == ReadyWith(ReadyWithout(old(ready), old(threads[id]), id), old(threads[id]), id)
      ensures ttList == TTWith(TTWithout(old(ttList), old(threads[id]), id), threads, id)
      ensures trace == old(trace) + [Schedule]
      ensures unchanged(`defunct, `registry, `runningTT, `current)
    {
      Expire(id, now);
      var ts := threads;
      CallScheduler();
      RefilledKeepsOrder(TTWithout(old(ttList), old(threads[id]), id), ts, current, id);
    }

    /** The first half of rt_thread_exit: the thread is taken off its lists,
        its timer stopped and its state set to CLOSE. */
    method Close(id: nat)
      requires Valid() && id < |threads| && id !in defunct
      requires StateOf(threads[id].stat) != INIT && StateOf(threads[id].stat) != CLOSE
      modifies this
      ensures Valid()
      ensures threads == old(threads)[id := Removed(old(threads[id])).(stat := CLOSE, timerActive := false)]
      ensures ready == ReadyWithout(old(ready), old(threads[id]), id)
      ensures ttList == TTWithout(old(ttList), old(threads[id]), id)
      ensures unchanged(`defunct, `registry, `runningTT, `current, `trace)
    {
      var t := threads[id];
      ScheduleRemove(id);
      WithoutAbsent(old(defunct), id);
      var t' := Removed(t).(stat := CLOSE, timerActive := false);
      SetThread(id, t');
      UpdateTwice(old(threads), id, Removed(t), t');
      Settle(threads, ready, ttList, id);
    }

    /** rt_thread_exit of the current thread: it leaves the scheduler and
        becomes CLOSE (a plain assignment) with its timer detached. A TT thread
        keeps no time slice, leaves the registry, is no longer counted, and
        goes to the front of the defunct list; a best-effort thread goes there
        too unless it is a static system object without cleanup, which is
        detached instead. Then the scheduler is called. */
    method Exit(detach: bool)
      requires Valid() && current.Some? && StateOf(threads[current.value].stat) != CLOSE
      modifies this
      ensures Valid()
      ensures threads == Refilled(old(threads)[old(current.value) := Removed(old(threads[current.value])).(
                stat := CLOSE, timerActive := false)], old(current))
      ensures ready == ReadyWithout(old(ready), old(threads[current.value]), old(current.value))
      ensures ttList == TTWithout(old(ttList), old(threads[current.value]), old(current.value))
      ensures registry == if old(threads[current.value].isTT) then Without(old(registry), old(current.value))
                          else old(registry)
      ensures defunct == if old(threads[current.value].isTT) || !detach then [old(current.value)] + old(defunct)
                         else old(defunct)
      ensures runningTT == if old(threads[current.value].isTT) then Dec32(old(runningTT)) else old(runningTT)
      ensures trace == old(trace) + [Schedule]
      ensures unchanged(`current)
    {
      var id := current.value;
      var t := threads[id];
      assert id !in defunct;
      Close(id);
      var ts, rd, tt, reg, df := threads, ready, ttList, registry, defunct;
      if t.isTT {
        RegistryRemoveKeeps(ts, rd, tt, reg, df, id);
        DefunctAddKeeps(ts, rd, tt, Without(reg, id), df, id);
        registry, defunct := Without(reg, id), [id] + df;
        runningTT := Dec32(runningTT);
      } else if !detach {
        DefunctAddKeeps(ts, rd, tt, reg, df, id);
        defunct := [id] + df;
      }
      CallScheduler();
    }

    // -------------------------------------------------------------------------
    // rt_thread_yield, branch by branch

    /** The hook loop of rt_thread_yield: every slot of the hook table that is
        not RT_NULL is called, slot by slot. */
    method RunTimeoutHooks()
      requires Valid()
      modifies this`trace
      ensures Valid() && trace == old(trace) + HookEvents(hooks.slots[..])
    {
      var i := 0;
      while i < hooks.slots.Length
        invariant 0 <= i <= hooks.slots.Length
        invariant trace == old(trace) + HookEvents(hooks.slots[..i])
      {
        assert hooks.slots[..i + 1][..i] == hooks.slots[..i];
        if hooks.slots[i] != NULL {
          trace := trace + [TimeoutHook(hooks.slots[i])];
        }
        i := i + 1;
      }
      assert hooks.slots[..i] == hooks.slots[..];
    }

    /** A TT thread leaves the TT list and gets a new record (its new
        activation time and time slice) while it is out of it. */
    method Postpone(id: nat, t: Thread)
      requires Linked() && ReadyExactBut(threads, ready, ttList, id) && id < |threads| && threads[id].isTT
      requires ThreadOk(t) && t.isTT && StateOf(t.stat) != INIT && id !in defunct
      modifies this
      ensures Linked() && ReadyExactBut(threads, ready, ttList, id)
      ensures threads == old(threads)[id := t] && ttList == Without(old(ttList), id) && id !in ttList
      ensures unchanged(`ready, `firstTTStart, `registry, `defunct, `runningTT, `current, `trace)
    {
      RemoveSkipNodes(id);
      SetThread(id, t);
    }

    /** A TT thread that yields with time slice left: its skip-list nodes are
        unlinked, an activation that has begun is moved one period on, its time
        slice is cleared and it is linked in again by rt_list_TT_thread_insert. */
    method YieldTTEarly(id: nat, now: nat)
      requires Valid() && id < |threads| && threads[id].isTT && StateOf(threads[id].stat) == READY
      modifies this
      ensures Valid()
      ensures threads == old(threads)[id := old(threads[id]).(
                startTime := NextActivation(old(threads[id].startTime), old(threads[id].cycle), now),
                remainingTick := 0)]
      ensures ttList == InsertByStart(TTWithout(old(ttList), old(threads[id]), id), threads, id)
      ensures unchanged(`ready, `registry, `defunct, `runningTT, `current, `trace)
    {
      var t := threads[id];
      var start := if t.startTime <= now then t.startTime + t.cycle else t.startTime;
      var t' := t.(startTime := start, remainingTick := 0);
      Postpone(id, t');
      TTInsert(id, now);
      var t'' := t.(startTime := NextActivation(t.startTime, t.cycle, now), remainingTick := 0);
      assert t'.(startTime := CatchUp(start, t.cycle, now)) == t'';
      UpdateTwice(old(threads), id, t', t'');
      Settle(threads, ready, ttList, id);
    }

    /** The early-yield branch of rt_thread_yield for the current TT thread,
        with its call of the scheduler: the thread is moved to its next
        activation, and rt_schedule gives it its full time slice again, since
        yielding cleared it. */
    method YieldTTEarlyAndSchedule(now: nat)
      requires Valid() && current.Some? && threads[current.value].isTT
      requires StateOf(threads[current.value].stat) == READY
      modifies this
      ensures Valid()
      ensures threads == old(threads)[old(current.value) := old(threads[current.value]).(
                startTime := NextActivation(old(threads[current.value].startTime), old(threads[current.value].cycle), now),
                remainingTick := old(threads[current.value].initTick))]
      ensures ttList == InsertByStart(TTWithout(old(ttList), old(threads[current.value]), old(current.value)),
                                      threads, old(current.value))
      ensures trace == old(trace) + [Schedule]
      ensures unchanged(`ready, `registry, `defunct, `runningTT, `current)
    {
      var id := current.value;
      var t := threads[id];
      YieldTTEarly(id, now);
      var ts := threads;
      CallScheduler();
      RefilledKeepsOrder(TTWithout(old(ttList), t, id), ts, current, id);
      UpdateTwice(old(threads), id, ts[id], ts[id].(remainingTick := t.initTick));
    }

    /** A best-effort thread that yields while a TT thread is due: its tlist
        node goes to the FRONT of the ready list of its priority, so that it
        runs first again once the TT thread is done, and it becomes READY. */
    method YieldToTT(id: nat)
      requires Valid() && id < |threads| && !threads[id].isTT && StateOf(threads[id].stat) != INIT
      modifies this
      ensures Valid()
      ensures threads == old(threads)[id := old(threads[id]).(stat := WithState(old(threads[id].stat), READY))]
      ensures ready == old(ready)[old(threads[id].currentPriority) :=
                [id] + Without(old(ready[threads[id].currentPriority]), id)]
      ensures defunct == Without(old(defunct), id)
      ensures unchanged(`ttList, `firstTTStart, `registry, `runningTT, `current, `trace)
    {
      var t := threads[id];
      var cp := t.currentPriority;
      RemoveTList(id);
      var ts, rd := threads, ready;
      NoDupCons(id, rd[cp]);
      ReadyLinkKeeps(ts, rd, ttList, registry, defunct, id, [id] + rd[cp]);
      ready := rd[cp := [id] + rd[cp]];
      SetThread(id, t.(stat := WithState(t.stat, READY)));
      Settle(threads, ready, ttList, id);
    }

    /** A READY best-effort thread that shares its priority with another thread:
        its tlist node goes to the BACK of the ready list of its priority. */
    method YieldRoundRobin(id: nat)
      requires Valid() && id < |threads| && !threads[id].isTT && StateOf(threads[id].stat) == READY
      modifies this
      ensures Valid()
      ensures ready == old(ready)[old(threads[id].currentPriority) :=
                Without(old(ready[threads[id].currentPriority]), id) + [id]]
      ensures unchanged(`threads, `ttList, `firstTTStart, `registry, `defunct, `runningTT, `current, `trace)
    {
      var t := threads[id];
      var cp := t.currentPriority;
      assert id !in defunct;
      RemoveTList(id);
      WithoutAbsent(old(defunct), id);
      var ts, rd := threads, ready;
      NoDupSnoc(rd[cp], id);
      ReadyLinkKeeps(ts, rd, ttList, registry, defunct, id, rd[cp] + [id]);
      ready := rd[cp := rd[cp] + [id]];
      Settle(threads, ready, ttList, id);
    }

    /** rt_thread_yield of the current thread. A TT thread (always READY and at
        RT_THREAD_PRIORITY_MAX when it runs) with time slice left is moved to
        its next activation; one without has overrun its budget: the timeout
        hooks are called and it exits. A best-effort thread goes to the front
        of its ready list when a TT thread is due, to the back when it is READY
        and not alone at its priority, and otherwise nothing happens. The
        scheduler is called in every branch that moves the thread. */
    method Yield(now: nat) returns (err: Err)
      requires Valid() && current.Some?
      requires threads[current.value].isTT ==>
                 StateOf(threads[current.value].stat) == READY && threads[current.value].currentPriority == PRIORITY_MAX
      modifies this
      ensures Valid() && err == EOk
      ensures old(threads[current.value].isTT) && old(threads[current.value].remainingTick) > 0 ==>
                threads == old(threads)[old(current.value) := old(threads[current.value]).(
                  startTime := NextActivation(old(threads[current.value].startTime), old(threads[current.value].cycle), now),
                  remainingTick := old(threads[current.value].initTick))] &&
                ttList == InsertByStart(TTWithout(old(ttList), old(threads[current.value]), old(current.value)),
                                        threads, old(current.value)) &&
                ready == old(ready) && registry == old(registry) && defunct == old(defunct) &&
                runningTT == old(runningTT) && trace == old(trace) + [Schedule]
      ensures old(threads[current.value].isTT) && old(threads[current.value].remainingTick) == 0 ==>
                threads == old(threads)[old(current.value) := old(threads[current.value]).(
                  stat := CLOSE, timerActive := false, remainingTick := old(threads[current.value].initTick))] &&
                ttList == Without(old(ttList), old(current.value)) && ready == old(ready) &&
                registry == Without(old(registry), old(current.value)) &&
                defunct == [old(current.value)] + old(defunct) && runningTT == Dec32(old(runningTT)) &&
                trace == old(trace) + HookEvents(hooks.slots[..]) + [Schedule]
      ensures !old(threads[current.value].isTT) && old(firstTTStart) != 0 && old(firstTTStart) <= now ==>
                threads == old(threads)[old(current.value) := old(threads[current.value]).(
                  stat := WithState(old(threads[current.value].stat), READY))] &&
                ready == old(ready)[old(threads[current.value].currentPriority) :=
                  [old(current.value)] + Without(old(ready[threads[current.value].currentPriority]), old(current.value))] &&
                ttList == old(ttList) && registry == old(registry) &&
                defunct == Without(old(defunct), old(current.value)) &&
                runningTT == old(runningTT) && trace == old(trace) + [Schedule]
      ensures !old(threads[current.value].isTT) && !(old(firstTTStart) != 0 && old(firstTTStart) <= now) &&
              StateOf(old(threads[current.value].stat)) == READY &&
              |old(ready[threads[current.value].currentPriority])| >= 2 ==>
                ready == old(ready)[old(threads[current.value].currentPriority) :=
                  Without(old(ready[threads[current.value].currentPriority]), old(current.value)) + [old(current.value)]] &&
                threads == old(threads) && ttList == old(ttList) && registry == old(registry) &&
                defunct == old(defunct) && runningTT == old(runningTT) && trace == old(trace) + [Schedule]
      ensures !old(threads[current.value].isTT) && !(old(firstTTStart) != 0 && old(firstTTStart) <= now) &&
              !(StateOf(old(threads[current.value].stat)) == READY &&
                |old(ready[threads[current.value].currentPriority])| >= 2) ==>
                unchanged(this)
      ensures unchanged(`current)
    {
      var id := current.value;
      var t := threads[id];
      if t.isTT {
        if t.remainingTick > 0 {
          YieldTTEarlyAndSchedule(now);
        } else {
          RunTimeoutHooks();
          Exit(false);
        }
      } else if firstTTStart != 0 && firstTTStart <= now {
        YieldToTT(id);
        CallScheduler();
      } else if StateOf(t.stat) == READY && |ready[t.currentPriority]| >= 2 {
        YieldRoundRobin(id);
        CallScheduler();
      }
      err := EOk;
    }
  }
}
