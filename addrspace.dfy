/**
 * The per-process address space of kern/vm/addrspace.c: a list of regions
 * (newest first), a list of page-table entries and a distinguished heap
 * region. The linked lists are sequences in list order; the heap pointer
 * is the position of the heap region in the region list.
 */
module AddrSpaces {
  import opened KernTypes

  /** A region: base address, size, permission flags and the flags saved while loading. */
  datatype Region = Region(
    vaddr: nat, size: nat,
    readable: int, writeable: int, executable: int,
    prevRead: int, prevWrite: int, prevExec: int)

  /**
   * A page-table entry (metadata only): the page address, the frame it is
   * in (`None` for INVAL_PPN), its swap slot (-1 if none) and permissions.
   */
  datatype Pte = Pte(vpn: nat, ppn: Option<nat>, slot: int, permissions: int)

  /** The stack constants of the machine layout, which are not part of this model. */
  datatype StackLayout = StackLayout(stackBottom: nat, stackSize: nat, userStack: nat)

  /** The first address past a region. */
  function RegionEnd(r: Region): nat {
    r.vaddr + r.size
  }

  /** The region `as_define_region` builds: nothing saved yet (`prev_* == -1`). */
  function NewRegion(vaddr: nat, size: nat, readable: int, writeable: int, executable: int): Region {
    Region(vaddr, size, readable, writeable, executable, -1, -1, -1)
  }

  /** The highest end address over a region list (0 for an empty list). */
  function MaxEnd(rs: seq<Region>): (m: nat)
    ensures forall k :: 0 <= k < |rs| ==> RegionEnd(rs[k]) <= m
    ensures (rs == [] && m == 0) || exists k :: 0 <= k < |rs| && RegionEnd(rs[k]) == m
  {
    if rs == [] then 0
    else
      var m' := MaxEnd(rs[..|rs| - 1]);
      var e := RegionEnd(rs[|rs| - 1]);
      if e > m' then e else m'
  }

  /** The least multiple of the page size at or above `x`. */
  function RoundUpToPage(x: nat): (r: nat)
    ensures PageAligned(r) && x <= r < x + PAGE_SIZE
  {
    if x % PAGE_SIZE != 0 then (x / PAGE_SIZE + 1) * PAGE_SIZE else x
  }

  /** Where `as_define_heap` places the heap: the highest region end rounded up to a page. */
  function HeapBase(rs: seq<Region>): nat {
    RoundUpToPage(MaxEnd(rs))
  }

  /** The heap region: empty, readable, writeable and executable. */
  function HeapRegion(base: nat): Region {
    NewRegion(base, 0, 4, 2, 1)
  }

  /** The base of the heap lies above every region and is the lowest page boundary that does. */
  lemma {:induction false} HeapBaseAboveRegions(rs: seq<Region>)
    ensures PageAligned(HeapBase(rs))
    ensures forall k :: 0 <= k < |rs| ==> RegionEnd(rs[k]) <= HeapBase(rs)
    ensures forall b :: 0 <= b < HeapBase(rs) && PageAligned(b) ==>
      exists k :: 0 <= k < |rs| && b < RegionEnd(rs[k])
  {
    var m := MaxEnd(rs);
    forall b | 0 <= b < HeapBase(rs) && PageAligned(b)
      ensures exists k :: 0 <= k < |rs| && b < RegionEnd(rs[k])
    {
      RoundUpIsLeast(m, b);
    }
  }

  /** No page boundary below the rounded-up value is at or above the value itself. */
  lemma RoundUpIsLeast(x: nat, b: nat)
    requires PageAligned(b) && b < RoundUpToPage(x)
    ensures b < x
  {
    if x % PAGE_SIZE != 0 {
      assert b / PAGE_SIZE * PAGE_SIZE == b;
      assert b / PAGE_SIZE <= x / PAGE_SIZE;
    }
  }

  /** The region list after `as_prepare_load`: every region writeable (2), its old flag saved. */
  function Prepared(rs: seq<Region>): (r: seq<Region>)
    ensures |r| == |rs|
  {
    seq(|rs|, k requires 0 <= k < |rs| => rs[k].(prevWrite := rs[k].writeable, writeable := 2))
  }

  /** The region list after `as_complete_load`: each saved flag restored, the save slot reset. */
  function Completed(rs: seq<Region>): (r: seq<Region>)
    ensures |r| == |rs|
  {
    seq(|rs|, k requires 0 <= k < |rs| => rs[k].(writeable := rs[k].prevWrite, prevWrite := -1))
  }

  /** Every region has a saved write flag, as `as_complete_load` asserts. */
  predicate WriteSaved(rs: seq<Region>) {
    forall k :: 0 <= k < |rs| ==> rs[k].prevWrite != -1
  }

  /**
   * Loading followed by completing the load restores every region's write
   * flag and clears the saved flag; a list of freshly defined regions comes
   * back unchanged.
   */
  lemma {:induction false} CompleteAfterPrepareRestores(rs: seq<Region>)
    requires forall k :: 0 <= k < |rs| ==> rs[k].writeable != -1
    ensures WriteSaved(Prepared(rs))
    ensures forall k :: 0 <= k < |rs| ==>
      Completed(Prepared(rs))[k] == rs[k].(prevWrite := -1)
    ensures (forall k :: 0 <= k < |rs| ==> rs[k].prevWrite == -1) ==> Completed(Prepared(rs)) == rs
  {
    var p := Prepared(rs);
    forall k | 0 <= k < |rs| ensures Completed(p)[k] == rs[k].(prevWrite := -1) {
      assert p[k].prevWrite == rs[k].writeable;
    }
    if forall k :: 0 <= k < |rs| ==> rs[k].prevWrite == -1 {
      forall k | 0 <= k < |rs| ensures Completed(p)[k] == rs[k] {
        assert rs[k].(prevWrite := -1) == rs[k];
      }
    }
  }

  /**
   * The copy `pte_copy` makes of an entry: same page and permissions, the
   * fresh frame `frame`, no swap slot.
   */
  function PteCopy(src: Pte, frame: nat): Pte {
    Pte(src.vpn, Some(frame), -1, src.permissions)
  }

  /** The swap slots `as_destroy` marks unoccupied: the positive ones, in page-table order. */
  function ReleasedSlots(pt: seq<Pte>): (r: seq<nat>)
    ensures forall x :: x in r <==> exists k :: 0 <= k < |pt| && pt[k].slot == x && x > 0
    ensures 0 !in r
    decreases |pt|
  {
    if pt == [] then []
    else
      var rest := ReleasedSlots(pt[..|pt| - 1]);
      var last := pt[|pt| - 1];
      assert forall k :: 0 <= k < |pt| - 1 ==> pt[..|pt| - 1][k] == pt[k];
      if last.slot > 0 then rest + [last.slot] else rest
  }

  /** The frames `as_destroy` frees: every entry's frame other than INVAL_PPN, in page-table order. */
  function FreedFrames(pt: seq<Pte>): (r: seq<nat>)
    ensures forall x :: x in r <==> exists k :: 0 <= k < |pt| && pt[k].ppn == Some(x)
    ensures |r| <= |pt|
    decreases |pt|
  {
    if pt == [] then []
    else
      var rest := FreedFrames(pt[..|pt| - 1]);
      var last := pt[|pt| - 1];
      assert forall k :: 0 <= k < |pt| - 1 ==> pt[..|pt| - 1][k] == pt[k];
      if last.ppn.Some? then rest + [last.ppn.value] else rest
  }

  /** No value occurs twice in `s` (the allocator never hands out a frame twice). */
  predicate Distinct(s: seq<nat>) {
    forall i, j :: 0 <= i < j < |s| ==> s[i] != s[j]
  }

  /** An address space: regions newest first, page-table entries, and the heap's position. */
  class AddrSpace {
    var regions: seq<Region>
    var pageTable: seq<Pte>
    var heap: Option<nat>
    var stackptr: nat

    /** The heap, when there is one, is a region of the list. */
    ghost predicate Valid()
      reads this
    {
      heap.Some? ==> heap.value < |regions|
    }

    /** `as_create`: no regions, no page-table entries, no heap. */
    constructor Create()
      ensures Valid()
      ensures regions == [] && pageTable == [] && heap == None
    {
      regions := [];
      pageTable := [];
      heap := None;
      stackptr := 0;
    }

    /**
     * `as_define_region`: a new region with the given address, size and flags
     * and nothing saved becomes the head of the list; the rest of the list
     * (and so the heap region) is unchanged. `memOk` is whether kmalloc
     * succeeds; if not, the result is ENOMEM and nothing changes.
     */
    method DefineRegion(vaddr: nat, size: nat, readable: int, writeable: int, executable: int, memOk: bool)
      returns (res: Outcome)
      requires Valid()
      modifies this`regions, this`heap
      ensures Valid()
      ensures res == if memOk then Success else Failure(ENOMEM)
      ensures memOk ==> regions == [NewRegion(vaddr, size, readable, writeable, executable)] + old(regions)
      ensures memOk ==> heap == if old(heap).Some? then Some(old(heap).value + 1) else None
      ensures !memOk ==> regions == old(regions) && heap == old(heap)
      ensures memOk && old(heap).Some? ==> regions[heap.value] == old(regions[heap.value])
    {
      if !memOk {
        return Failure(ENOMEM);
      }
      regions := [NewRegion(vaddr, size, readable, writeable, executable)] + regions;
      if heap.Some? {
        heap := Some(heap.value + 1);
      }
      res := Success;
    }

    /**
     * `as_define_heap`: a running maximum over the regions gives the highest
     * end address; rounded up to a page (and asserted nonzero) it becomes
     * the base of an empty region at the head of the list, which is the heap.
     */
    method DefineHeap()
      requires Valid()
      requires HeapBase(regions) != 0
      modifies this`regions, this`heap
      ensures Valid()
      ensures regions == [HeapRegion(HeapBase(old(regions)))] + old(regions)
      ensures heap == Some(0) && regions[0].size == 0
    {
      var candidate := 0;
      var i := 0;
      while i < |regions|
        invariant 0 <= i <= |regions|
        invariant candidate == MaxEnd(regions[..i])
      {
        assert regions[..i + 1][..i] == regions[..i];
        if regions[i].vaddr + regions[i].size > candidate {
          candidate := regions[i].vaddr + regions[i].size;
        }
        i := i + 1;
      }
      assert regions[..i] == regions;
      if candidate % PAGE_SIZE != 0 {
        candidate := (candidate / PAGE_SIZE + 1) * PAGE_SIZE;
      }
      var _ := DefineRegion(candidate, 0, 4, 2, 1, true);
      heap := Some(0);
    }

    /**
     * `as_define_stack`: the heap is defined first, then the stack region
     * `[stackBottom, stackBottom + stackSize)`; on success the initial stack
     * pointer, returned and recorded, is `userStack`.
     */
    method DefineStack(layout: StackLayout, memOk: bool) returns (res: Result<nat>)
      requires Valid()
      requires HeapBase(regions) != 0
      modifies this`regions, this`heap, this`stackptr
      ensures Valid()
      ensures var h := HeapRegion(HeapBase(old(regions)));
        if memOk then
          res == Ok(layout.userStack) && stackptr == layout.userStack && heap == Some(1) &&
          regions == [NewRegion(layout.stackBottom, layout.stackSize, 4, 2, 1), h] + old(regions)
        else
          res == Err(ENOMEM) && stackptr == old(stackptr) && heap == Some(0) &&
          regions == [h] + old(regions)
    {
      DefineHeap();
      var r := DefineRegion(layout.stackBottom, layout.stackSize, 4, 2, 1, memOk);
      if r.Failure? {
        return Err(r.error);
      }
      stackptr := layout.userStack;
      res := Ok(layout.userStack);
    }

    /** `as_prepare_load`: every region made writeable, its previous flag saved. */
    method PrepareLoad() returns (r: int)
      modifies this`regions
      ensures r == 0
      ensures regions == Prepared(old(regions))
    {
      var i := 0;
      while i < |regions|
        invariant 0 <= i <= |regions| == |old(regions)|
        invariant forall k :: 0 <= k < i ==> regions[k] == Prepared(old(regions))[k]
        invariant forall k :: i <= k < |regions| ==> regions[k] == old(regions)[k]
      {
        regions := regions[i := regions[i].(prevWrite := regions[i].writeable, writeable := 2)];
        i := i + 1;
      }
      r := 0;
    }

    /** `as_complete_load`: every saved write flag (asserted present) restored and reset to -1. */
    method CompleteLoad() returns (r: int)
      requires WriteSaved(regions)
      modifies this`regions
      ensures r == 0
      ensures regions == Completed(old(regions))
    {
      var i := 0;
      while i < |regions|
        invariant 0 <= i <= |regions| == |old(regions)|
        invariant forall k :: 0 <= k < i ==> regions[k] == Completed(old(regions))[k]
        invariant forall k :: i <= k < |regions| ==> regions[k] == old(regions)[k]
      {
        regions := regions[i := regions[i].(writeable := regions[i].prevWrite, prevWrite := -1)];
        i := i + 1;
      }
      r := 0;
    }

    /**
     * `as_copy`: the new address space has the same regions field for field,
     * in the same order, with the heap at the same position (asserted present
     * when there are regions), and one entry per page-table entry, each a
     * `pte_copy`. `frames` are the frames `getppages` hands out, in order; a
     * frame whose back-reference is recorded in `backrefs` points at the
     * position of the new entry using it. When the allocator runs out before
     * every entry is copied, the result is ENOMEM.
     */
    method Copy(frames: seq<nat>) returns (res: Outcome, child: AddrSpace?, backrefs: map<nat, nat>)
      requires Valid()
      requires regions != [] ==> heap.Some?
      requires Distinct(frames)
      ensures res == if |frames| >= |pageTable| then Success else Failure(ENOMEM)
      ensures res.Success? ==> child != null && fresh(child) && child.Valid()
      ensures res.Success? ==> child.regions == regions && child.heap == heap
      ensures res.Success? ==> |child.pageTable| == |pageTable|
      ensures res.Success? ==> forall k :: 0 <= k < |pageTable| ==>
        child.pageTable[k] == PteCopy(pageTable[k], frames[k])
      ensures res.Success? ==> forall k :: 0 <= k < |pageTable| ==>
        frames[k] in backrefs && backrefs[frames[k]] == k
      ensures res.Failure? ==> child == null
    {
      var na := new AddrSpace.Create();
      // Regions: `reg_copy` of each node in turn, the heap pointer set on the matching node.
      var i := 0;
      while i < |regions|
        invariant 0 <= i <= |regions|
        invariant na.regions == regions[..i] && na.pageTable == []
        invariant na.heap == if heap.Some? && heap.value < i then heap else None
      {
        if heap == Some(i) {
          na.heap := Some(i);
        }
        na.regions := na.regions + [regions[i]];
        i := i + 1;
      }
      assert regions[..i] == regions;
      // Page-table entries: `pte_copy` of each entry, each with a fresh frame.
      backrefs := map[];
      var j := 0;
      while j < |pageTable|
        invariant 0 <= j <= |pageTable|
        invariant na.regions == regions && na.heap == heap
        invariant |na.pageTable| == j
        invariant j <= |frames|
        invariant forall k :: 0 <= k < j ==> na.pageTable[k] == PteCopy(pageTable[k], frames[k])
        invariant forall k :: 0 <= k < j ==> frames[k] in backrefs && backrefs[frames[k]] == k
      {
        if j >= |frames| {
          return Failure(ENOMEM), null, backrefs;
        }
        na.pageTable := na.pageTable + [PteCopy(pageTable[j], frames[j])];
        backrefs := backrefs[frames[j] := j];
        j := j + 1;
      }
      res, child := Success, na;
    }

    /**
     * `as_destroy`: every swap slot above 0 held by an entry is marked
     * unoccupied, every frame other than INVAL_PPN is freed, and the page
     * table, region list and heap pointer end up empty. The slots and frames
     * are returned in the order the source releases them.
     */
    method Destroy() returns (releasedSlots: seq<nat>, freedFrames: seq<nat>)
      modifies this`regions, this`pageTable, this`heap
      ensures releasedSlots == ReleasedSlots(old(pageTable))
      ensures freedFrames == FreedFrames(old(pageTable))
      ensures regions == [] && pageTable == [] && heap == None
      ensures Valid()
    {
      releasedSlots, freedFrames := [], [];
      var i := 0;
      while i < |pageTable|
        invariant 0 <= i <= |pageTable|
        invariant releasedSlots == ReleasedSlots(pageTable[..i])
        invariant freedFrames == FreedFrames(pageTable[..i])
      {
        assert pageTable[..i + 1][..i] == pageTable[..i];
        var pte := pageTable[i];
        if pte.slot > 0 {
          releasedSlots := releasedSlots + [pte.slot];
        }
        if pte.ppn.Some? {
          freedFrames := freedFrames + [pte.ppn.value];
        }
        i := i + 1;
      }
      assert pageTable[..i] == pageTable;
      pageTable := [];
      regions := [];
      heap := None;
    }
  }
}
