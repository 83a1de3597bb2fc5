/**
 * The table of hooks run when a time-triggered thread overruns its budget:
 * a fixed number of slots, each empty (RT_NULL) or holding one hook. Hooks
 * are opaque identifiers; 0 stands for RT_NULL.
 */
module Hooks {
  import opened Wrappers
  import opened Threads

  /** RT_NULL: an empty slot. */
  const NULL: nat := 0

  /** The lowest index at which v occurs, if any. */
  function FirstIndex(s: seq<nat>, v: nat): (r: Option<nat>)
    ensures r.None? <==> v !in s
    ensures r.Some? ==> r.value < |s| && s[r.value] == v
    ensures r.Some? ==> forall j :: 0 <= j < r.value ==> s[j] != v
  {
    if s == [] then None
    else if s[0] == v then Some(0)
    else
      assert s == [s[0]] + s[1..];
      match FirstIndex(s[1..], v)
      case None => None
      case Some(i) => Some(i + 1)
  }

  /** The table after a call, and the call's return code. */
  datatype HookUpdate = HookUpdate(table: seq<nat>, err: Err)

  /** rt_TT_thread_timeout_sethook on a table holding s: the hook goes into the
      lowest empty slot and nothing else changes; with no empty slot the
      table is left as it was and -RT_EFULL is returned. */
  function SetHook(s: seq<nat>, hook: nat): (r: HookUpdate)
    ensures r.err == EOk <==> NULL in s
    ensures r.err != EOk ==> r.err == EFull && r.table == s
    ensures r.err == EOk ==>
              exists k :: (0 <= k < |s| && s[k] == NULL &&
                (forall j :: 0 <= j < k ==> s[j] != NULL) && r.table == s[k := hook])
  {
    match FirstIndex(s, NULL)
    case None => HookUpdate(s, EFull)
    case Some(k) => HookUpdate(s[k := hook], EOk)
  }

  /** rt_TT_thread_timeout_delhook on a table holding s: the lowest slot holding
      the hook is emptied and nothing else changes; if no slot holds it the
      table is left as it was and -RT_ENOSYS is returned. */
  function DelHook(s: seq<nat>, hook: nat): (r: HookUpdate)
    ensures r.err == EOk <==> hook in s
    ensures r.err != EOk ==> r.err == ENoSys && r.table == s
    ensures r.err == EOk ==>
              exists k :: (0 <= k < |s| && s[k] == hook &&
                (forall j :: 0 <= j < k ==> s[j] != hook) && r.table == s[k := NULL])
  {
    match FirstIndex(s, hook)
    case None => HookUpdate(s, ENoSys)
    case Some(k) => HookUpdate(s[k := NULL], EOk)
  }

  /** Registering a hook that is not yet in a table with room for it, then
      deleting it, gives back the original table. */
  lemma SetThenDelHook(s: seq<nat>, hook: nat)
    requires hook != NULL && hook !in s && NULL in s
    ensures SetHook(s, hook).err == EOk
    ensures DelHook(SetHook(s, hook).table, hook) == HookUpdate(s, EOk)
  {
    var k := FirstIndex(s, NULL).value;
    var t := s[k := hook];
    assert t[k] == hook;
    assert t[k := NULL] == s;
  }

  /** Slots are matched by value, so a hook registered twice takes two slots,
      and deleting it once leaves it registered in the later one. */
  lemma SetTwiceDelOnce(s: seq<nat>, hook: nat, i: nat, j: nat)
    requires hook != NULL && hook !in s
    requires i < j < |s| && s[i] == NULL && s[j] == NULL
    ensures SetHook(s, hook).err == EOk
    ensures SetHook(SetHook(s, hook).table, hook).err == EOk
    ensures var t := SetHook(SetHook(s, hook).table, hook).table;
            DelHook(t, hook).err == EOk && hook in DelHook(t, hook).table
  {
    var k := FirstIndex(s, NULL).value;
    var t1 := s[k := hook];
    assert t1[j] == NULL;
    var k2 := FirstIndex(t1, NULL).value;
    assert k < k2;
    var t2 := t1[k2 := hook];
    assert t2[k] == hook;
    var d := FirstIndex(t2, hook).value;
    assert d == k;
    assert t2[k := NULL][k2] == hook;
  }

  /** The table itself: RT_TT_THREAD_TIMEOUT_HOOK_LIST_SIZE slots updated in place. */
  class HookTable {
    const slots: array<nat>

    /** The table as it starts out: every slot empty. */
    constructor (size: nat)
      ensures fresh(slots) && slots.Length == size
      ensures forall i :: 0 <= i < size ==> slots[i] == NULL
    {
      slots := new nat[size](i => NULL);
    }

    /** rt_TT_thread_timeout_sethook. */
    method Set(hook: nat) returns (err: Err)
      modifies slots
      ensures HookUpdate(slots[..], err) == SetHook(old(slots[..]), hook)
    {
      err := EFull;
      var i := 0;
      while i < slots.Length
        invariant 0 <= i <= slots.Length
        invariant slots[..] == old(slots[..])
        invariant forall j :: 0 <= j < i ==> slots[j] != NULL
      {
        if slots[i] == NULL {
          slots[i] := hook;
          err := EOk;
          assert FirstIndex(old(slots[..]), NULL) == Some(i);
          return;
        }
        i := i + 1;
      }
    }

    /** rt_TT_thread_timeout_delhook. */
    method Del(hook: nat) returns (err: Err)
      modifies slots
      ensures HookUpdate(slots[..], err) == DelHook(old(slots[..]), hook)
    {
      err := ENoSys;
      var i := 0;
      while i < slots.Length
        invariant 0 <= i <= slots.Length
        invariant slots[..] == old(slots[..])
        invariant forall j :: 0 <= j < i ==> slots[j] != hook
      {
        if slots[i] == hook {
          slots[i] := NULL;
          err := EOk;
          assert FirstIndex(old(slots[..]), hook) == Some(i);
          return;
        }
        i := i + 1;
      }
    }
  }
}
