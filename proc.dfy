/**
 * The process table of kern/proc/proc.c: a global array of PROC_MAX
 * slots, a cursor where the next search starts, and a counter that hands
 * out process ids; plus the per-process thread count.
 */
module Procs {
  import opened KernTypes

  /**
   * The lowest empty slot of `s` at or after `from`; no wrap to the slots
   * below `from`.
   */
  function FirstEmptyFrom(s: seq<Option<int>>, from: nat): (r: Option<nat>)
    ensures r.Some? ==> (from <= r.value < |s| && s[r.value].None? &&
      forall j :: from <= j < r.value ==> s[j].Some?)
    ensures r.None? ==> forall j :: from <= j < |s| ==> s[j].Some?
    decreases |s| - from
  {
    if from >= |s| then None
    else if s[from].None? then Some(from)
    else FirstEmptyFrom(s, from + 1)
  }

  /** The lowest slot of `s` that holds the process with id `pid`. */
  function FirstHolding(s: seq<Option<int>>, pid: int): (r: Option<nat>)
    ensures r.Some? ==> (r.value < |s| && s[r.value] == Some(pid) &&
      forall j :: 0 <= j < r.value ==> s[j] != Some(pid))
    ensures r.None? <==> Some(pid) !in s
    decreases |s|
  {
    if s == [] then None
    else
      var r := FirstHolding(s[..|s| - 1], pid);
      assert s == s[..|s| - 1] + [s[|s| - 1]];
      if r.Some? then r
      else if s[|s| - 1] == Some(pid) then Some(|s| - 1)
      else None
  }

  /** The slot `processtable_add` would fill, or none: the cursor wraps only when it equals PROC_MAX. */
  function AddSlot(s: seq<Option<int>>, cursor: nat): Option<nat> {
    FirstEmptyFrom(s, if cursor == |s| then 0 else cursor)
  }

  /**
   * `processtable_add` finds no slot when every slot at or after the cursor
   * is taken, even though an earlier slot is empty: with PROC_MAX = 4, four
   * adds, freeing slot 1, one add (into slot 1, cursor 2) and freeing slot
   * 0 leave this table and cursor.
   */
  lemma AddMissesFreeSlotBelowCursor()
    ensures var s := [None, Some(6), Some(4), Some(5)];
      AddSlot(s, 2) == None && s[0] == None
  {
  }

  /**
   * The search `processtable_add` evidently intends: from the cursor up,
   * then wrapping to the slots below it.
   */
  function WrappingSlot(s: seq<Option<int>>, cursor: nat): (r: Option<nat>)
    requires cursor <= |s|
  {
    var c := if cursor == |s| then 0 else cursor;
    var up := FirstEmptyFrom(s, c);
    if up.Some? then up else FirstEmptyFrom(s[..c], 0)
  }

  /**
   * The wrapping search fails only on a full table, and otherwise finds an
   * empty slot: the first at or after the cursor if there is one, else the
   * lowest of all.
   */
  lemma {:induction false} WrappingSlotFailsOnlyWhenFull(s: seq<Option<int>>, cursor: nat)
    requires cursor <= |s|
    ensures WrappingSlot(s, cursor).None? <==> None !in s
    ensures WrappingSlot(s, cursor).Some? ==> s[WrappingSlot(s, cursor).value].None?
    ensures AddSlot(s, cursor).Some? ==> WrappingSlot(s, cursor) == AddSlot(s, cursor)
  {
    var c := if cursor == |s| then 0 else cursor;
    var up := FirstEmptyFrom(s, c);
    if up.None? {
      var low := FirstEmptyFrom(s[..c], 0);
      if low.Some? {
        assert s[low.value] == s[..c][low.value];
      } else {
        forall j | 0 <= j < |s| ensures s[j].Some? {
          if j < c {
            assert s[..c][j] == s[j];
          }
        }
      }
    }
  }

  /** The ids in the table's occupied slots are distinct and all below `bound`. */
  ghost predicate IdsBelow(s: seq<Option<int>>, bound: int) {
    (forall k :: 0 <= k < |s| && s[k].Some? ==> s[k].value < bound) &&
    (forall j, k :: 0 <= j < k < |s| && s[j].Some? && s[k].Some? ==> s[j].value != s[k].value)
  }

  /** The process table: for each slot the id of the process in it, or none (NULL). */
  class ProcTable {
    const table: array<Option<int>>
    var lastIndex: nat
    var pidCounter: int

    ghost predicate Valid()
      reads this, table
    {
      lastIndex <= table.Length && IdsBelow(table[..], pidCounter)
    }

    /**
     * `proctable_bootstrap` on the zero-initialised global table of
     * `procMax` slots: the cursor starts at 0 and the first id handed out
     * is 2.
     */
    constructor Bootstrap(procMax: nat)
      ensures Valid() && fresh(table) && table.Length == procMax
      ensures forall k :: 0 <= k < procMax ==> table[k].None?
      ensures lastIndex == 0 && pidCounter == 2
    {
      table := new Option<int>[procMax](_ => None);
      lastIndex := 0;
      pidCounter := 2;
    }

    /**
     * `processtable_add`. A cursor equal to PROC_MAX is reset to 0 first.
     * The process goes into the first empty slot at or after the cursor,
     * receives the counter's value as its id (greater than every id in the
     * table), the counter rises by one and the cursor moves past the slot.
     * With no such slot the id is -1, the result ENPROC, and only the reset
     * of the cursor remains. (The search restarted from slot 0 in the
     * source is only reached after an empty slot has been found, and that
     * slot is always taken first, so it never runs.)
     */
    method Add() returns (res: Outcome, pid: int)
      requires Valid()
      modifies this, table
      ensures Valid()
      ensures var c := if old(lastIndex) == table.Length then 0 else old(lastIndex);
        match AddSlot(old(table[..]), old(lastIndex))
        case Some(y) =>
          res == Success && pid == old(pidCounter) && pidCounter == pid + 1 && lastIndex == y + 1 &&
          table[..] == old(table[..])[y := Some(pid)] &&
          (forall k :: 0 <= k < table.Length && old(table[k]).Some? ==> old(table[k]).value < pid)
        case None =>
          res == Failure(ENPROC) && pid == -1 && lastIndex == c &&
          table[..] == old(table[..]) && pidCounter == old(pidCounter)
    {
      if lastIndex == table.Length {
        lastIndex := 0;
      }
      var i := lastIndex;
      while i < table.Length
        invariant lastIndex <= i <= table.Length
        invariant forall j :: lastIndex <= j < i ==> table[j].Some?
        invariant FirstEmptyFrom(table[..], lastIndex) == FirstEmptyFrom(table[..], i)
      {
        if table[i].None? {
          table[i] := Some(pidCounter);
          pid := pidCounter;
          pidCounter := pidCounter + 1;
          lastIndex := i + 1;
          return Success, pid;
        }
        i := i + 1;
      }
      pid := -1;
      res := Failure(ENPROC);
    }

    /**
     * `processtable_add` with the wrap it evidently intends: when no slot at
     * or after the cursor is empty, the search continues from slot 0, so
     * ENPROC (and the id -1) means the table is full.
     */
    method AddWrapping() returns (res: Outcome, pid: int)
      requires Valid()
      modifies this, table
      ensures Valid()
      ensures var c := if old(lastIndex) == table.Length then 0 else old(lastIndex);
        match WrappingSlot(old(table[..]), old(lastIndex))
        case Some(y) =>
          res == Success && pid == old(pidCounter) && pidCounter == pid + 1 && lastIndex == y + 1 &&
          table[..] == old(table[..])[y := Some(pid)] &&
          (forall k :: 0 <= k < table.Length && old(table[k]).Some? ==> old(table[k]).value < pid)
        case None =>
          res == Failure(ENPROC) && pid == -1 && lastIndex == c &&
          table[..] == old(table[..]) && pidCounter == old(pidCounter)
    {
      if lastIndex == table.Length {
        lastIndex := 0;
      }
      var i := lastIndex;
      while i < table.Length
        invariant lastIndex <= i <= table.Length
        invariant FirstEmptyFrom(table[..], lastIndex) == FirstEmptyFrom(table[..], i)
      {
        if table[i].None? {
          table[i] := Some(pidCounter);
          pid := pidCounter;
          pidCounter := pidCounter + 1;
          lastIndex := i + 1;
          return Success, pid;
        }
        i := i + 1;
      }
      ghost var low := table[..lastIndex];
      i := 0;
      while i < lastIndex
        invariant 0 <= i <= lastIndex
        invariant FirstEmptyFrom(low, 0) == FirstEmptyFrom(low, i)
      {
        if table[i].None? {
          table[i] := Some(pidCounter);
          pid := pidCounter;
          pidCounter := pidCounter + 1;
          lastIndex := i + 1;
          return Success, pid;
        }
        i := i + 1;
      }
      pid := -1;
      res := Failure(ENPROC);
    }

    /**
     * The removal loop of `proc_destroy`: the first slot holding a process
     * with id `pid` becomes empty, and as ids are distinct no slot holds
     * that process afterwards; nothing else changes.
     */
    method Remove(pid: int)
      requires Valid()
      modifies table
      ensures Valid()
      ensures match FirstHolding(old(table[..]), pid)
        case Some(k) => table[..] == old(table[..])[k := None]
        case None => table[..] == old(table[..])
      ensures Some(pid) !in table[..]
    {
      var i := 0;
      while i < table.Length
        invariant 0 <= i <= table.Length
        invariant forall j :: 0 <= j < i ==> table[j] != Some(pid)
        invariant table[..] == old(table[..])
      {
        if table[i].Some? && table[i].value == pid {
          table[i] := None;
          assert FirstHolding(old(table[..]), pid) == Some(i);
          return;
        }
        i := i + 1;
      }
    }
  }

  /** A thread, with the process it belongs to (`t_proc`). */
  class Thread {
    var proc: Proc?

    constructor ()
      ensures proc == null
    {
      proc := null;
    }
  }

  /** A process's thread count (`p_numthreads`). */
  class Proc {
    var numThreads: nat

    constructor ()
      ensures numThreads == 0
    {
      numThreads := 0;
    }

    /** `proc_addthread`: a thread without a process joins this one, whose count rises by one. */
    method AddThread(t: Thread) returns (r: int)
      requires t.proc == null
      modifies this, t
      ensures r == 0 && t.proc == this && numThreads == old(numThreads) + 1
    {
      numThreads := numThreads + 1;
      t.proc := this;
      r := 0;
    }
  }

  /**
   * `proc_remthread`: the thread leaves its process, whose count (which
   * must be positive) falls by one.
   */
  method RemThread(t: Thread)
    requires t.proc != null && t.proc.numThreads > 0
    modifies t, t.proc
    ensures t.proc == null && old(t.proc).numThreads == old(t.proc.numThreads) - 1
  {
    var p := t.proc;
    p.numThreads := p.numThreads - 1;
    t.proc := null;
  }
}
