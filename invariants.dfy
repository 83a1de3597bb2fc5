/**
 * The consistency conditions between the thread records and the lists that
 * link them (ready lists, TT list, registry, defunct list), and the lemmas
 * that say which list operations keep them. Everything here is about values;
 * the kernel's methods take a snapshot of their fields and call these.
 */
module Invariants {
  import opened Wrappers
  import opened Admission
  import opened Priority
  import opened Threads
  import opened Lists
  import opened Queues

  /** The parameters the collision check reads from each registered thread. */
  function RegistryParams(ts: seq<Thread>, reg: seq<nat>): (r: seq<TTParams>)
    requires IdsIn(reg, |ts|)
    ensures |r| == |reg|
    ensures forall i :: 0 <= i < |reg| ==>
              r[i] == TTParams(ts[reg[i]].cycle, ts[reg[i]].offset, ts[reg[i]].maxExecTime)
  {
    seq(|reg|, i requires 0 <= i < |reg| => TTParams(ts[reg[i]].cycle, ts[reg[i]].offset, ts[reg[i]].maxExecTime))
  }

  /** The ready table once the thread's tlist node is unlinked: only a
      best-effort thread's tlist can be in a ready list, and only in the list
      of its own current priority. */
  function ReadyWithout(ready: seq<seq<nat>>, t: Thread, id: nat): seq<seq<nat>>
  {
    if !t.isTT && t.currentPriority < |ready| then
      ready[t.currentPriority := Without(ready[t.currentPriority], id)]
    else ready
  }

  /** The ready table once a best-effort thread is appended to the ready list
      of its current priority. */
  function ReadyWith(ready: seq<seq<nat>>, t: Thread, id: nat): seq<seq<nat>>
  {
    if !t.isTT && t.currentPriority < |ready| then
      ready[t.currentPriority := ready[t.currentPriority] + [id]]
    else ready
  }

  /** The TT list once a TT thread's skip-list nodes are unlinked. */
  function TTWithout(tt: seq<nat>, t: Thread, id: nat): (r: seq<nat>)
    ensures forall n: nat :: IdsIn(tt, n) ==> IdsIn(r, n)
  {
    assert forall n: nat :: IdsIn(tt, n) ==> IdsIn(Without(tt, id), n) by {
      forall n: nat | IdsIn(tt, n) ensures IdsIn(Without(tt, id), n) {
        WithoutIdsIn(tt, id, n);
      }
    }
    if t.isTT then Without(tt, id) else tt
  }

  /** The TT list once thread id, if it is a TT thread, is linked in at its
      place by activation time. */
  function TTWith(tt: seq<nat>, ts: seq<Thread>, id: nat): seq<nat>
    requires IdsIn(tt, |ts|) && id < |ts|
  {
    if ts[id].isTT then InsertByStart(tt, ts, id) else tt
  }

  /** The record rt_schedule_insert_thread leaves: READY with every other flag
      bit kept, and for a TT thread an activation time caught up to now. */
  function Inserted(t: Thread, now: nat): (r: Thread)
    requires t.isTT ==> t.cycle > 0
    ensures StateOf(r.stat) == READY
    ensures t.isTT ==> r.startTime >= now && (r.startTime - t.startTime) % t.cycle == 0
  {
    t.(stat := WithState(t.stat, READY),
       startTime := if t.isTT then CatchUp(t.startTime, t.cycle, now) else t.startTime)
  }

  /** The record rt_schedule_remove_thread leaves: a TT thread's remaining time
      slice is cleared, a best-effort thread's record is untouched. */
  function Removed(t: Thread): (r: Thread)
    ensures r.isTT ==> r.remainingTick == 0
  {
    if t.isTT then t.(remainingTick := 0) else t
  }

  /** The records rt_schedule leaves: a current TT thread whose time slice is
      used up gets a fresh one of init_tick ticks. */
  function Refilled(ts: seq<Thread>, cur: Option<nat>): (r: seq<Thread>)
    ensures |r| == |ts|
  {
    if cur.Some? && cur.value < |ts| && ts[cur.value].isTT && ts[cur.value].remainingTick == 0 then
      ts[cur.value := ts[cur.value].(remainingTick := ts[cur.value].initTick)]
    else ts
  }

  /** The refill touches only the current thread's time slice: every other
      record, and every other field, stays as it was; a best-effort thread or a
      TT thread with ticks left is not touched; a TT thread without gets its
      full slice. */
  lemma RefillOnlyRefills(ts: seq<Thread>, cur: Option<nat>)
    ensures forall i :: 0 <= i < |ts| ==> Refilled(ts, cur)[i].(remainingTick := ts[i].remainingTick) == ts[i]
    ensures forall i :: 0 <= i < |ts| && (cur != Some(i) || !ts[i].isTT || ts[i].remainingTick > 0) ==>
              Refilled(ts, cur)[i] == ts[i]
    ensures cur.Some? && cur.value < |ts| && ts[cur.value].isTT ==>
              Refilled(ts, cur)[cur.value].remainingTick ==
                (if ts[cur.value].remainingTick == 0 then ts[cur.value].initTick else ts[cur.value].remainingTick)
  {
  }

  /** The refill leaves the TT list's order as it was. */
  lemma RefilledKeepsOrder(tt: seq<nat>, ts: seq<Thread>, cur: Option<nat>, id: nat)
    requires IdsIn(tt, |ts|) && id < |ts|
    ensures InsertByStart(tt, Refilled(ts, cur), id) == InsertByStart(tt, ts, id)
    ensures TTWith(tt, Refilled(ts, cur), id) == TTWith(tt, ts, id)
  {
    RefillOnlyRefills(ts, cur);
    InsertByStartSameStarts(tt, ts, Refilled(ts, cur), id);
  }

  /** The record rt_thread_startup prepares before resuming the thread: the
      current priority reset to the initial one, a best-effort thread's bitmap
      attributes computed from it, and the state SUSPEND (a plain assignment,
      no flag bit kept). */
  function Started(t: Thread): (r: Thread)
    ensures StateOf(r.stat) == SUSPEND && r.currentPriority == t.initPriority
    ensures !t.isTT && t.initPriority < PRIORITY_MAX ==>
              r.masks.numberMask > 0 && DecodePriority(r.masks, PRIORITY_MAX > 32) == r.currentPriority
  {
    assert !t.isTT && t.initPriority < PRIORITY_MAX ==>
             DecodePriority(PriorityMasks(t.initPriority), PRIORITY_MAX > 32) == t.initPriority by {
      if !t.isTT && t.initPriority < PRIORITY_MAX { PriorityMasksRoundTrip(t.initPriority); }
    }
    t.(currentPriority := t.initPriority,
       masks := if t.isTT then t.masks else PriorityMasks(t.initPriority),
       stat := SUSPEND)
  }

  /** The record the priority change of rt_thread_control leaves: the new
      current priority and the bitmap attributes recomputed from it. */
  function Reprioritized(t: Thread, prio: nat): (r: Thread)
    ensures r.currentPriority == prio && r.stat == t.stat
    ensures prio < PRIORITY_MAX ==>
              r.masks.numberMask > 0 && DecodePriority(r.masks, PRIORITY_MAX > 32) == prio
  {
    assert prio < PRIORITY_MAX ==> DecodePriority(PriorityMasks(prio), PRIORITY_MAX > 32) == prio by {
      if prio < PRIORITY_MAX { PriorityMasksRoundTrip(prio); }
    }
    t.(currentPriority := prio, masks := PriorityMasks(prio))
  }

  /** Unlinking a thread that is in no ready list leaves the table as it was. */
  lemma ReadyWithoutAbsent(ready: seq<seq<nat>>, t: Thread, id: nat)
    requires !t.isTT && t.currentPriority < |ready| ==> id !in ready[t.currentPriority]
    ensures ReadyWithout(ready, t, id) == ready
  {
    if !t.isTT && t.currentPriority < |ready| {
      WithoutAbsent(ready[t.currentPriority], id);
    }
  }

  /** Unlinking a READY best-effort thread and inserting it again, as a
      suspend followed by a resume, a timeout or a priority change to the same
      level does, moves it to the back of its ready list and keeps exactly the
      threads that were there. */
  lemma RequeueMovesToBack(ready: seq<seq<nat>>, t: Thread, id: nat)
    requires !t.isTT && t.currentPriority < |ready|
    requires NoDup(ready[t.currentPriority]) && id in ready[t.currentPriority]
    ensures ReadyWith(ReadyWithout(ready, t, id), t, id) ==
              ready[t.currentPriority := Without(ready[t.currentPriority], id) + [id]]
    ensures multiset(ReadyWith(ReadyWithout(ready, t, id), t, id)[t.currentPriority]) ==
              multiset(ready[t.currentPriority])
  {
    var q := t.currentPriority;
    var rest := Without(ready[q], id);
    var w := ready[q := rest];
    assert ReadyWithout(ready, t, id) == w;
    assert w[q] == rest && |w| == |ready|;
    assert ReadyWith(w, t, id) == w[q := rest + [id]];
    UpdateTwice(ready, q, rest, rest + [id]);
    MoveKeeps(ready[q], id);
  }

  /** Two writes to the same record: the second wins. */
  lemma UpdateTwice<T>(s: seq<T>, i: nat, a: T, b: T)
    requires i < |s|
    ensures s[i := a][i := b] == s[i := b]
  {
  }

  /** Writing back a record as it is changes nothing. */
  lemma UpdateSame<T>(s: seq<T>, i: nat)
    requires i < |s|
    ensures s[i := s[i]] == s
  {
  }

  // ---------------------------------------------------------------------------
  // Invariants

  /** A TT thread has a period and was created at RT_THREAD_PRIORITY_MAX; a
      best-effort thread was created below it and, once started, has a current
      priority below it and the bitmap attributes of that priority. */
  ghost predicate ThreadOk(t: Thread)
  {
    (t.isTT ==> t.cycle > 0 && t.initPriority == PRIORITY_MAX) &&
    (!t.isTT ==> t.initPriority < PRIORITY_MAX) &&
    (!t.isTT && StateOf(t.stat) != INIT ==>
       t.currentPriority < PRIORITY_MAX && t.masks == PriorityMasks(t.currentPriority))
  }

  ghost predicate ThreadsOk(ts: seq<Thread>)
  {
    forall i :: 0 <= i < |ts| ==> ThreadOk(ts[i])
  }

  /** rt_thread_priority_table: one list per priority, each holding started
      best-effort threads of exactly that priority, each at most once. */
  ghost predicate ReadyOk(ts: seq<Thread>, ready: seq<seq<nat>>)
  {
    |ready| == PRIORITY_MAX &&
    (forall p :: 0 <= p < |ready| ==> NoDup(ready[p])) &&
    (forall p :: 0 <= p < |ready| ==> forall x :: x in ready[p] ==>
       x < |ts| && !ts[x].isTT && ts[x].currentPriority == p && StateOf(ts[x].stat) != INIT)
  }

  /** The bottom level of rt_TT_thread_list: started TT threads, each at most
      once, in ascending order of next activation time. */
  ghost predicate TTListOk(ts: seq<Thread>, tt: seq<nat>)
  {
    IdsIn(tt, |ts|) && NoDup(tt) && SortedByStart(tt, ts) &&
    (forall x :: x in tt ==> x < |ts| && ts[x].isTT && StateOf(ts[x].stat) != INIT)
  }

  /** rt_created_TT_thread_list: TT threads, each at most once. */
  ghost predicate RegistryOk(ts: seq<Thread>, reg: seq<nat>)
  {
    IdsIn(reg, |ts|) && NoDup(reg) && (forall x :: x in reg ==> x < |ts| && ts[x].isTT)
  }

  /** rt_thread_defunct: threads that have exited. */
  ghost predicate DefunctOk(ts: seq<Thread>, def: seq<nat>)
  {
    forall x :: x in def ==> x < |ts| && StateOf(ts[x].stat) == CLOSE
  }

  ghost predicate ListsOk(ts: seq<Thread>, ready: seq<seq<nat>>, tt: seq<nat>, reg: seq<nat>, def: seq<nat>)
  {
    ThreadsOk(ts) && ReadyOk(ts, ready) && TTListOk(ts, tt) && RegistryOk(ts, reg) && DefunctOk(ts, def)
  }

  /** Whether thread x (record t) is linked where the scheduler looks for it:
      a TT thread in the TT list, a best-effort thread in the ready list of
      its current priority. */
  ghost predicate Queued(t: Thread, x: nat, ready: seq<seq<nat>>, tt: seq<nat>)
  {
    if t.isTT then x in tt else t.currentPriority < |ready| && x in ready[t.currentPriority]
  }

  /** A started thread is READY exactly when it is queued. */
  ghost predicate Settled(ts: seq<Thread>, ready: seq<seq<nat>>, tt: seq<nat>, x: nat)
    requires x < |ts|
  {
    StateOf(ts[x].stat) != INIT ==> (StateOf(ts[x].stat) == READY <==> Queued(ts[x], x, ready, tt))
  }

  ghost predicate ReadyExact(ts: seq<Thread>, ready: seq<seq<nat>>, tt: seq<nat>)
  {
    forall x :: 0 <= x < |ts| ==> Settled(ts, ready, tt, x)
  }

  /** ReadyExact for every thread but id, the one an operation is working on. */
  ghost predicate ReadyExactBut(ts: seq<Thread>, ready: seq<seq<nat>>, tt: seq<nat>, id: nat)
  {
    forall x :: 0 <= x < |ts| && x != id ==> Settled(ts, ready, tt, x)
  }

  // ---------------------------------------------------------------------------
  // Lemmas on the invariants

  /** The scheduler's initial state, no thread and every list empty, is consistent. */
  lemma EmptyOk(ready: seq<seq<nat>>)
    requires |ready| == PRIORITY_MAX && forall p :: 0 <= p < |ready| ==> ready[p] == []
    ensures ListsOk([], ready, [], [], []) && ReadyExact([], ready, []) && HeadStart([], []) == 0
  {
  }

  /** Once the thread being worked on is settled again, every thread is. */
  lemma Settle(ts: seq<Thread>, ready: seq<seq<nat>>, tt: seq<nat>, id: nat)
    requires ReadyExactBut(ts, ready, tt, id) && id < |ts| && Settled(ts, ready, tt, id)
    ensures ReadyExact(ts, ready, tt)
  {
  }

  /** A new record in state INIT is linked nowhere, so adding it keeps every invariant. */
  lemma AddKeeps(ts: seq<Thread>, ready: seq<seq<nat>>, tt: seq<nat>, reg: seq<nat>, def: seq<nat>, t: Thread)
    requires ListsOk(ts, ready, tt, reg, def) && ReadyExact(ts, ready, tt)
    requires ThreadOk(t) && StateOf(t.stat) == INIT
    ensures ListsOk(ts + [t], ready, tt, reg, def) && ReadyExact(ts + [t], ready, tt)
    ensures HeadStart(tt, ts + [t]) == HeadStart(tt, ts)
  {
    var ts' := ts + [t];
    forall i, j | 0 <= i < j < |tt| ensures ts'[tt[i]].startTime <= ts'[tt[j]].startTime {
      assert tt[i] in tt && tt[j] in tt;
    }
    forall p, x | 0 <= p < |ready| && x in ready[p]
      ensures x < |ts'| && !ts'[x].isTT && ts'[x].currentPriority == p && StateOf(ts'[x].stat) != INIT
    {
      assert ts'[x] == ts[x];
    }
    forall x | 0 <= x < |ts'| ensures Settled(ts', ready, tt, x) {
      if x < |ts| {
        assert ts'[x] == ts[x] && Settled(ts, ready, tt, x);
      }
    }
    assert ThreadsOk(ts');
    assert ReadyOk(ts', ready);
    assert TTListOk(ts', tt);
    assert RegistryOk(ts', reg);
    assert DefunctOk(ts', def);
  }

  /** Replacing one thread record keeps the lists well formed as long as the
      record keeps its kind, keeps the priority of the ready list it is linked
      into and the activation time it is sorted by, does not go back to INIT,
      and stays CLOSE while on the defunct list; every other thread stays
      settled, and the TT list's head keeps its activation time. */
  lemma UpdateKeeps(ts: seq<Thread>, ready: seq<seq<nat>>, tt: seq<nat>, reg: seq<nat>, def: seq<nat>, id: nat, t: Thread)
    requires ListsOk(ts, ready, tt, reg, def) && ReadyExactBut(ts, ready, tt, id) && id < |ts| && ThreadOk(t)
    requires t.isTT == ts[id].isTT
    requires StateOf(ts[id].stat) != INIT ==> StateOf(t.stat) != INIT
    requires forall p :: 0 <= p < |ready| && id in ready[p] ==> t.currentPriority == p
    requires id in tt ==> t.startTime == ts[id].startTime
    requires id in def ==> StateOf(t.stat) == CLOSE
    ensures ListsOk(ts[id := t], ready, tt, reg, def) && ReadyExactBut(ts[id := t], ready, tt, id)
    ensures HeadStart(tt, ts[id := t]) == HeadStart(tt, ts)
  {
    var ts' := ts[id := t];
    forall i, j | 0 <= i < j < |tt| ensures ts'[tt[i]].startTime <= ts'[tt[j]].startTime {
      assert tt[i] in tt && tt[j] in tt;
    }
    forall x | 0 <= x < |ts'| && x != id ensures Settled(ts', ready, tt, x) {
      assert ts'[x] == ts[x] && Settled(ts, ready, tt, x);
    }
    assert ThreadsOk(ts');
    assert ReadyOk(ts', ready);
    assert TTListOk(ts', tt);
    assert RegistryOk(ts', reg);
    assert DefunctOk(ts', def);
  }

  /** rt_list_remove of a thread's tlist node: it leaves its ready list (if it
      is a best-effort thread) and the defunct list; the lists stay well formed
      and every other thread stays settled. */
  lemma RemoveTListKeeps(ts: seq<Thread>, ready: seq<seq<nat>>, tt: seq<nat>, reg: seq<nat>, def: seq<nat>, id: nat)
    requires ListsOk(ts, ready, tt, reg, def) && ReadyExactBut(ts, ready, tt, id) && id < |ts|
    ensures ListsOk(ts, ReadyWithout(ready, ts[id], id), tt, reg, Without(def, id))
    ensures ReadyExactBut(ts, ReadyWithout(ready, ts[id], id), tt, id)
    ensures forall p :: 0 <= p < |ready| ==> id !in ReadyWithout(ready, ts[id], id)[p]
    ensures id !in Without(def, id)
    ensures !ts[id].isTT ==> id !in tt
  {
    var t := ts[id];
    var ready' := ReadyWithout(ready, t, id);
    forall p | 0 <= p < |ready'| ensures NoDup(ready'[p]) && id !in ready'[p] {
      if !t.isTT && p == t.currentPriority {
        assert ready'[p] == Without(ready[p], id);
        NoDupWithout(ready[p], id);
      } else {
        assert ready'[p] == ready[p];
      }
    }
    forall x | 0 <= x < |ts| && x != id ensures Settled(ts, ready', tt, x) {
      assert Settled(ts, ready, tt, x);
      var cp := ts[x].currentPriority;
      if !ts[x].isTT && cp < |ready| {
        assert x in ready'[cp] <==> x in ready[cp];
      }
    }
    assert ReadyOk(ts, ready');
  }

  /** Unlinking a TT thread from every level of the TT list keeps it sorted and
      every other thread settled. */
  lemma RemoveSkipNodesKeeps(ts: seq<Thread>, ready: seq<seq<nat>>, tt: seq<nat>, reg: seq<nat>, def: seq<nat>, id: nat)
    requires ListsOk(ts, ready, tt, reg, def) && ReadyExactBut(ts, ready, tt, id) && id < |ts|
    requires ts[id].isTT
    ensures ListsOk(ts, ready, Without(tt, id), reg, def)
    ensures ReadyExactBut(ts, ready, Without(tt, id), id)
    ensures id !in Without(tt, id)
    ensures forall p :: 0 <= p < |ready| ==> id !in ready[p]
  {
    WithoutKeepsOrder(tt, id, ts);
    NoDupWithout(tt, id);
    forall x | 0 <= x < |ts| && x != id ensures Settled(ts, ready, Without(tt, id), x) {
      assert Settled(ts, ready, tt, x);
    }
  }

  /** Linking a started best-effort thread that is in no ready list into the list
      of its priority, at either end, keeps the ready table well formed and every
      other thread settled. */
  lemma ReadyLinkKeeps(ts: seq<Thread>, ready: seq<seq<nat>>, tt: seq<nat>, reg: seq<nat>, def: seq<nat>, id: nat, l: seq<nat>)
    requires ListsOk(ts, ready, tt, reg, def) && ReadyExactBut(ts, ready, tt, id)
    requires id < |ts| && !ts[id].isTT && StateOf(ts[id].stat) != INIT
    requires forall p :: 0 <= p < |ready| ==> id !in ready[p]
    requires NoDup(l) && forall x :: x in l <==> x in ready[ts[id].currentPriority] || x == id
    ensures ListsOk(ts, ready[ts[id].currentPriority := l], tt, reg, def)
    ensures ReadyExactBut(ts, ready[ts[id].currentPriority := l], tt, id)
    ensures Queued(ts[id], id, ready[ts[id].currentPriority := l], tt)
  {
    var cp := ts[id].currentPriority;
    var ready' := ready[cp := l];
    forall p | 0 <= p < |ready'| ensures NoDup(ready'[p]) {
      if p != cp { assert ready'[p] == ready[p]; }
    }
    forall p, x | 0 <= p < |ready'| && x in ready'[p]
      ensures x < |ts| && !ts[x].isTT && ts[x].currentPriority == p && StateOf(ts[x].stat) != INIT
    {
      if p != cp {
        assert ready'[p] == ready[p];
      } else if x != id {
        assert x in ready[cp];
      }
    }
    forall x | 0 <= x < |ts| && x != id ensures Settled(ts, ready', tt, x) {
      assert Settled(ts, ready, tt, x);
      var q := ts[x].currentPriority;
      if !ts[x].isTT && q < |ready| {
        assert x in ready'[q] <==> x in ready[q];
      }
    }
    assert ReadyOk(ts, ready');
  }

  /** Linking a started TT thread that is not in the TT list at its place by
      activation time keeps the list sorted and every other thread settled. */
  lemma TTLinkKeeps(ts: seq<Thread>, ready: seq<seq<nat>>, tt: seq<nat>, reg: seq<nat>, def: seq<nat>, id: nat)
    requires ListsOk(ts, ready, tt, reg, def) && ReadyExactBut(ts, ready, tt, id)
    requires id < |ts| && ts[id].isTT && StateOf(ts[id].stat) != INIT && id !in tt
    ensures ListsOk(ts, ready, InsertByStart(tt, ts, id), reg, def)
    ensures ReadyExactBut(ts, ready, InsertByStart(tt, ts, id), id)
    ensures Queued(ts[id], id, ready, InsertByStart(tt, ts, id))
  {
    InsertByStartSorted(tt, ts, id);
    InsertByStartPlace(tt, ts, id);
    InsertByStartCount(tt, ts, id);
    var tt' := InsertByStart(tt, ts, id);
    forall x | 0 <= x < |ts| && x != id ensures Settled(ts, ready, tt', x) {
      assert Settled(ts, ready, tt, x);
    }
  }

  /** Dropping a thread from the registry keeps it well formed. */
  lemma RegistryRemoveKeeps(ts: seq<Thread>, ready: seq<seq<nat>>, tt: seq<nat>, reg: seq<nat>, def: seq<nat>, id: nat)
    requires ListsOk(ts, ready, tt, reg, def)
    ensures ListsOk(ts, ready, tt, Without(reg, id), def)
  {
    NoDupWithout(reg, id);
  }

  /** Putting a closed thread in front of the defunct list keeps it well formed. */
  lemma DefunctAddKeeps(ts: seq<Thread>, ready: seq<seq<nat>>, tt: seq<nat>, reg: seq<nat>, def: seq<nat>, id: nat)
    requires ListsOk(ts, ready, tt, reg, def) && id < |ts| && StateOf(ts[id].stat) == CLOSE
    ensures ListsOk(ts, ready, tt, reg, [id] + def)
  {
  }
}
