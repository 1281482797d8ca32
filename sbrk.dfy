/**
 * The heap-break system call of kern/syscall/sbrk_syscalls.c: validate the
 * change, resize the heap region, and on a shrink drop the page-table
 * entries whose pages now lie outside the heap.
 */
module Sbrk {
  import opened KernTypes
  import opened AddrSpaces

  /** The entry's page (`vpn & PAGE_FRAME`) lies in `[bottom, top)`. */
  predicate InRange(p: Pte, bottom: int, top: int) {
    bottom <= PageBase(p.vpn) < top
  }

  /** The entries a shrink keeps, in their original order. */
  function Kept(pt: seq<Pte>, bottom: int, top: int): (r: seq<Pte>)
    ensures forall p :: p in r <==> p in pt && !InRange(p, bottom, top)
    ensures |r| <= |pt|
    decreases |pt|
  {
    if pt == [] then []
    else
      var rest := Kept(pt[..|pt| - 1], bottom, top);
      var last := pt[|pt| - 1];
      assert pt == pt[..|pt| - 1] + [last];
      if InRange(last, bottom, top) then rest else rest + [last]
  }

  /** The entries a shrink removes (and whose frames it frees), in their original order. */
  function Dropped(pt: seq<Pte>, bottom: int, top: int): (r: seq<Pte>)
    ensures forall p :: p in r <==> p in pt && InRange(p, bottom, top)
    ensures |r| + |Kept(pt, bottom, top)| == |pt|
    decreases |pt|
  {
    if pt == [] then []
    else
      var rest := Dropped(pt[..|pt| - 1], bottom, top);
      var last := pt[|pt| - 1];
      assert pt == pt[..|pt| - 1] + [last];
      if InRange(last, bottom, top) then rest + [last] else rest
  }

  /** Dropping nothing from a table none of whose pages is in range keeps the table as it is. */
  lemma {:induction false} KeptAllWhenNoneInRange(pt: seq<Pte>, bottom: int, top: int)
    requires forall k :: 0 <= k < |pt| ==> !InRange(pt[k], bottom, top)
    ensures Kept(pt, bottom, top) == pt && Dropped(pt, bottom, top) == []
    decreases |pt|
  {
    if pt != [] {
      var init := pt[..|pt| - 1];
      assert forall k :: 0 <= k < |init| ==> init[k] == pt[k];
      KeptAllWhenNoneInRange(init, bottom, top);
      assert pt == init + [pt[|pt| - 1]];
    }
  }

  /** Shrinking is idempotent: the entries kept once are all kept again. */
  lemma {:induction false} KeptIdempotent(pt: seq<Pte>, bottom: int, top: int)
    ensures Kept(Kept(pt, bottom, top), bottom, top) == Kept(pt, bottom, top)
  {
    var r := Kept(pt, bottom, top);
    forall k | 0 <= k < |r| ensures !InRange(r[k], bottom, top) {
      assert r[k] in r;
    }
    KeptAllWhenNoneInRange(r, bottom, top);
  }

  /** Every entry of the table ends up on exactly one side: kept and dropped are a split of it. */
  lemma {:induction false} SplitIsPermutation(pt: seq<Pte>, bottom: int, top: int)
    ensures multiset(Kept(pt, bottom, top)) + multiset(Dropped(pt, bottom, top)) == multiset(pt)
    decreases |pt|
  {
    if pt != [] {
      var init := pt[..|pt| - 1];
      SplitIsPermutation(init, bottom, top);
      assert pt == init + [pt[|pt| - 1]];
    }
  }

  /**
   * The walk over the page table in `sys_sbrk`: entries whose page lies in
   * `[bottom, top)` are removed, the rest stay linked in their order.
   */
  method SplitEntries(pt: seq<Pte>, bottom: int, top: int) returns (kept: seq<Pte>, dropped: seq<Pte>)
    ensures kept == Kept(pt, bottom, top)
    ensures dropped == Dropped(pt, bottom, top)
  {
    kept, dropped := [], [];
    var i := 0;
    while i < |pt|
      invariant 0 <= i <= |pt|
      invariant kept == Kept(pt[..i], bottom, top)
      invariant dropped == Dropped(pt[..i], bottom, top)
    {
      assert pt[..i + 1][..i] == pt[..i];
      var pte := pt[i];
      if bottom <= PageBase(pte.vpn) && PageBase(pte.vpn) < top {
        dropped := dropped + [pte];
      } else {
        kept := kept + [pte];
      }
      i := i + 1;
    }
    assert pt[..i] == pt;
  }

  /** The heap region of an address space. */
  function HeapOf(regions: seq<Region>, heap: Option<nat>): Region
    requires heap.Some? && heap.value < |regions|
  {
    regions[heap.value]
  }

  /** The current break: the end of the heap region. */
  function Break(regions: seq<Region>, heap: Option<nat>): nat
    requires heap.Some? && heap.value < |regions|
  {
    RegionEnd(HeapOf(regions, heap))
  }

  /**
   * `sys_sbrk(amount)`. A misaligned amount is EINVAL; shrinking past an
   * empty heap is EINVAL; a new break at or above the stack's bottom is
   * ENOMEM; in each of these nothing changes. Otherwise only the heap's
   * size changes, by exactly `amount`, and the old break is returned; on a
   * shrink the entries of the pages in `[new break, old break)` are dropped
   * (and their frames freed) and all others kept in order. The heap is
   * present and the break page-aligned (both asserted) once the amount is.
   */
  method SysSbrk(aspace: AddrSpace, amount: int, layout: StackLayout) returns (res: Result<nat>, dropped: seq<Pte>)
    requires aspace.Valid()
    requires PageAligned(amount) ==> aspace.heap.Some? && PageAligned(Break(aspace.regions, aspace.heap))
    modifies aspace`regions, aspace`pageTable
    ensures aspace.Valid() && aspace.heap == old(aspace.heap)
    ensures !PageAligned(amount) ==> res == Err(EINVAL)
    ensures PageAligned(amount) ==>
      var h := old(HeapOf(aspace.regions, aspace.heap));
      var brk := old(Break(aspace.regions, aspace.heap));
      if amount < 0 && h.size < -amount then res == Err(EINVAL)
      else if brk + amount >= layout.stackBottom then res == Err(ENOMEM)
      else
        res == Ok(brk) && h.size + amount >= 0 &&
        aspace.regions == old(aspace.regions)[aspace.heap.value := h.(size := h.size + amount)] &&
        Break(aspace.regions, aspace.heap) == brk + amount && PageAligned(Break(aspace.regions, aspace.heap)) &&
        (amount < 0 ==>
          aspace.pageTable == Kept(old(aspace.pageTable), brk + amount, brk) &&
          dropped == Dropped(old(aspace.pageTable), brk + amount, brk)) &&
        (amount >= 0 ==> aspace.pageTable == old(aspace.pageTable) && dropped == [])
    ensures res.Err? ==> aspace.regions == old(aspace.regions) && aspace.pageTable == old(aspace.pageTable) && dropped == []
  {
    dropped := [];
    if amount % PAGE_SIZE != 0 {
      return Err(EINVAL), dropped;
    }
    var hi := aspace.heap.value;
    var heap := aspace.regions[hi];
    var ret := heap.vaddr + heap.size;
    if amount < 0 && heap.size < -amount {
      return Err(EINVAL), dropped;
    }
    if heap.vaddr + heap.size + amount >= layout.stackBottom {
      return Err(ENOMEM), dropped;
    }
    aspace.regions := aspace.regions[hi := heap.(size := heap.size + amount)];
    if amount < 0 {
      var top := ret;
      var bottom := ret + amount;
      var kept;
      kept, dropped := SplitEntries(aspace.pageTable, bottom, top);
      aspace.pageTable := kept;
    }
    res := Ok(ret);
  }
}
