/**
 * The scheduler's lists, seen abstractly as sequences of thread indices:
 * the best-effort ready list of one priority (FIFO), and the bottom level of
 * the time-triggered skip list, kept sorted by next activation time.
 */
module Queues {
  import opened Arith
  import opened Threads
  import opened Lists

  /** Every entry names a thread of an arena of n threads. */
  ghost predicate IdsIn(list: seq<nat>, n: nat)
  {
    forall i :: 0 <= i < |list| ==> list[i] < n
  }

  /** The list is in ascending order of next activation time. */
  ghost predicate SortedByStart(list: seq<nat>, ts: seq<Thread>)
    requires IdsIn(list, |ts|)
  {
    forall i, j :: 0 <= i < j < |list| ==> ts[list[i]].startTime <= ts[list[j]].startTime
  }

  lemma TailSorted(list: seq<nat>, ts: seq<Thread>)
    requires list != [] && IdsIn(list, |ts|) && SortedByStart(list, ts)
    ensures IdsIn(list[1..], |ts|) && SortedByStart(list[1..], ts)
    ensures forall y :: y in list[1..] ==> ts[list[0]].startTime <= ts[y].startTime
  {
    var tail := list[1..];
    forall i, j | 0 <= i < j < |tail| ensures ts[tail[i]].startTime <= ts[tail[j]].startTime {
      assert tail[i] == list[i + 1] && tail[j] == list[j + 1];
    }
    forall y | y in tail ensures ts[list[0]].startTime <= ts[y].startTime {
      var k :| 0 <= k < |tail| && tail[k] == y;
      assert list[k + 1] == y;
    }
  }

  /** A thread due no later than every entry of a sorted list can go in front. */
  lemma SortedCons(h: nat, rest: seq<nat>, ts: seq<Thread>)
    requires h < |ts| && IdsIn(rest, |ts|) && SortedByStart(rest, ts)
    requires forall y :: y in rest ==> y < |ts| && ts[h].startTime <= ts[y].startTime
    ensures IdsIn([h] + rest, |ts|) && SortedByStart([h] + rest, ts)
  {
    var r := [h] + rest;
    forall i, j | 0 <= i < j < |r| ensures ts[r[i]].startTime <= ts[r[j]].startTime {
      assert r[j] == rest[j - 1] && rest[j - 1] in rest;
      if i > 0 {
        assert r[i] == rest[i - 1];
      }
    }
  }

  lemma {:induction false} WithoutKeepsOrder(list: seq<nat>, x: nat, ts: seq<Thread>)
    requires IdsIn(list, |ts|) && SortedByStart(list, ts)
    ensures IdsIn(Without(list, x), |ts|) && SortedByStart(Without(list, x), ts)
  {
    if list != [] {
      var tail := list[1..];
      TailSorted(list, ts);
      WithoutKeepsOrder(tail, x, ts);
      if list[0] != x {
        assert Without(list, x) == [list[0]] + Without(tail, x);
        SortedCons(list[0], Without(tail, x), ts);
      }
    }
  }

  /** Removal keeps every entry within the arena. */
  lemma {:induction false} WithoutIdsIn(list: seq<nat>, x: nat, n: nat)
    requires IdsIn(list, n)
    ensures IdsIn(Without(list, x), n)
  {
    if list != [] {
      WithoutIdsIn(list[1..], x, n);
      var rest := Without(list[1..], x);
      var r := Without(list, x);
      if list[0] != x {
        assert r == [list[0]] + rest;
        forall i | 0 <= i < |r| ensures r[i] < n {
          if i > 0 { assert r[i] == rest[i - 1]; }
        }
      }
    }
  }

  /** Where rt_list_TT_thread_insert links a thread whose activation time is key:
      after every leading entry that is due no later than key. */
  function InsertPos(list: seq<nat>, ts: seq<Thread>, key: nat): (p: nat)
    requires IdsIn(list, |ts|)
    ensures p <= |list|
    ensures forall i :: 0 <= i < p ==> ts[list[i]].startTime <= key
    ensures p < |list| ==> ts[list[p]].startTime > key
  {
    if list == [] || ts[list[0]].startTime > key then 0
    else 1 + InsertPos(list[1..], ts, key)
  }

  /** The TT list with thread id linked in at its place by activation time. */
  function InsertByStart(list: seq<nat>, ts: seq<Thread>, id: nat): seq<nat>
    requires IdsIn(list, |ts|) && id < |ts|
  {
    var p := InsertPos(list, ts, ts[id].startTime);
    list[..p] + [id] + list[p..]
  }

  /** The place a thread is linked in depends only on the activation times. */
  lemma InsertByStartSameStarts(list: seq<nat>, ts: seq<Thread>, ts': seq<Thread>, id: nat)
    requires IdsIn(list, |ts|) && id < |ts| && |ts'| == |ts|
    requires forall i :: 0 <= i < |ts| ==> ts'[i].startTime == ts[i].startTime
    ensures InsertByStart(list, ts', id) == InsertByStart(list, ts, id)
  {
    var p := InsertPos(list, ts, ts[id].startTime);
    var q := InsertPos(list, ts', ts'[id].startTime);
    assert p == q;
  }

  /** Where each entry of list[..p] + [id] + list[p..] comes from. */
  lemma SpliceIndex(list: seq<nat>, p: nat, id: nat)
    requires p <= |list|
    ensures |list[..p] + [id] + list[p..]| == |list| + 1
    ensures (list[..p] + [id] + list[p..])[p] == id
    ensures forall i :: 0 <= i < p ==> (list[..p] + [id] + list[p..])[i] == list[i]
    ensures forall i :: p < i <= |list| ==> (list[..p] + [id] + list[p..])[i] == list[i - 1]
  {
  }

  /** Past a head due no later than the newcomer, insertion goes into the tail. */
  lemma InsertByStartStep(list: seq<nat>, ts: seq<Thread>, id: nat)
    requires IdsIn(list, |ts|) && id < |ts| && list != [] && ts[list[0]].startTime <= ts[id].startTime
    ensures IdsIn(list[1..], |ts|)
    ensures InsertByStart(list, ts, id) == [list[0]] + InsertByStart(list[1..], ts, id)
  {
    var tail := list[1..];
    var q := InsertPos(tail, ts, ts[id].startTime);
    assert list[..q + 1] == [list[0]] + tail[..q];
    assert list[q + 1..] == tail[q..];
  }

  /** Inserting keeps the list sorted. */
  lemma {:induction false} InsertByStartSorted(list: seq<nat>, ts: seq<Thread>, id: nat)
    requires IdsIn(list, |ts|) && id < |ts| && SortedByStart(list, ts)
    ensures IdsIn(InsertByStart(list, ts, id), |ts|)
    ensures SortedByStart(InsertByStart(list, ts, id), ts)
  {
    var key := ts[id].startTime;
    if list == [] || ts[list[0]].startTime > key {
      assert InsertByStart(list, ts, id) == [id] + list;
      forall y | y in list ensures y < |ts| && key <= ts[y].startTime {
        var k :| 0 <= k < |list| && list[k] == y;
      }
      SortedCons(id, list, ts);
    } else {
      var tail := list[1..];
      TailSorted(list, ts);
      InsertByStartStep(list, ts, id);
      InsertByStartSorted(tail, ts, id);
      InsertByStartPlace(tail, ts, id);
      var rest := InsertByStart(tail, ts, id);
      forall y | y in rest ensures y < |ts| && ts[list[0]].startTime <= ts[y].startTime {
        var k :| 0 <= k < |rest| && rest[k] == y;
      }
      SortedCons(list[0], rest, ts);
    }
  }

  /** Inserting adds exactly the one thread and leaves in place every entry
      due no later than it: among threads due at the same tick the newcomer
      goes last. */
  lemma InsertByStartPlace(list: seq<nat>, ts: seq<Thread>, id: nat)
    requires IdsIn(list, |ts|) && id < |ts| && SortedByStart(list, ts)
    ensures forall x :: x in InsertByStart(list, ts, id) <==> x in list || x == id
    ensures forall i :: 0 <= i < |list| && ts[list[i]].startTime <= ts[id].startTime ==>
              InsertByStart(list, ts, id)[i] == list[i]
  {
    var key := ts[id].startTime;
    var p := InsertPos(list, ts, key);
    assert list == list[..p] + list[p..];
    SpliceIndex(list, p, id);
    forall i | p <= i < |list| ensures ts[list[i]].startTime > key {
      assert ts[list[p]].startTime <= ts[list[i]].startTime;
    }
  }

  /** Inserting a thread that is not yet linked keeps the list free of duplicates
      and adds exactly one entry. */
  lemma InsertByStartCount(list: seq<nat>, ts: seq<Thread>, id: nat)
    requires IdsIn(list, |ts|) && id < |ts|
    ensures multiset(InsertByStart(list, ts, id)) == multiset(list) + multiset{id}
    ensures NoDup(list) && id !in list ==> NoDup(InsertByStart(list, ts, id))
  {
    var p := InsertPos(list, ts, ts[id].startTime);
    var r := list[..p] + [id] + list[p..];
    assert list == list[..p] + list[p..];
    SpliceIndex(list, p, id);
    if NoDup(list) && id !in list {
      forall i, j | 0 <= i < j < |r| ensures r[i] != r[j] {
        if i < p && j < p {
        } else if i < p && j == p {
        } else if i < p {
          assert r[j] == list[j - 1];
        } else if i == p {
          assert r[j] == list[j - 1];
        } else {
          assert r[i] == list[i - 1] && r[j] == list[j - 1];
        }
      }
    }
  }

  /** The next activation time of a TT list that is not empty is its head's;
      0, the value the scheduler starts with, when the list is empty. */
  function HeadStart(list: seq<nat>, ts: seq<Thread>): nat
    requires IdsIn(list, |ts|)
  {
    if list == [] then 0 else ts[list[0]].startTime
  }

  /** The head of a sorted TT list is due no later than any thread in it. */
  lemma HeadIsEarliest(list: seq<nat>, ts: seq<Thread>)
    requires IdsIn(list, |ts|) && SortedByStart(list, ts)
    ensures forall i :: 0 <= i < |list| ==> HeadStart(list, ts) <= ts[list[i]].startTime
  {
    forall i | 0 < i < |list| ensures ts[list[0]].startTime <= ts[list[i]].startTime {
    }
  }

  /** The catch-up loop at the start of rt_list_TT_thread_insert: activations
      already in the past are skipped whole periods at a time. */
  function CatchUp(start: nat, cycle: nat, now: nat): (r: nat)
    requires cycle > 0
    ensures r >= now && r >= start
    ensures (r - start) % cycle == 0
    ensures start >= now ==> r == start
    ensures start < now ==> r - cycle < now
    decreases if start < now then now - start else 0
  {
    if start < now then
      var r := CatchUp(start + cycle, cycle, now);
      ModShift(r - start - cycle, 1, cycle);
      r
    else
      ModMultiple(0, cycle);
      start
  }

  /** The next activation a TT thread gets when it yields with budget left: one
      period later if the current one has begun, then caught up to now. */
  function NextActivation(start: nat, cycle: nat, now: nat): nat
    requires cycle > 0
  {
    CatchUp(if start <= now then start + cycle else start, cycle, now)
  }

  /** A thread that has started its activation and yields within the same period
      is next due exactly one period later; one whose activation is still ahead
      keeps it; in every case the new time is in phase with the old one, not
      before now, and no activation at or after now is skipped. */
  lemma NextActivationSpec(start: nat, cycle: nat, now: nat)
    requires cycle > 0
    ensures start <= now < start + cycle ==> NextActivation(start, cycle, now) == start + cycle
    ensures now < start ==> NextActivation(start, cycle, now) == start
    ensures NextActivation(start, cycle, now) >= now
    ensures (NextActivation(start, cycle, now) - start) % cycle == 0
    ensures start <= now ==> NextActivation(start, cycle, now) > start
    ensures start <= now ==> NextActivation(start, cycle, now) - cycle <= now
  {
    if start <= now {
      var r := CatchUp(start + cycle, cycle, now);
      ModShift(r - start - cycle, 1, cycle);
    } else {
      ModMultiple(0, cycle);
    }
  }
}
