/**
 * The physical frame table ("coremap") of kern/vm/vm.c: one entry per
 * physical page, holding whether it is in use and, on the first frame of a
 * kernel allocation, the length of the run.
 */
module Coremap {
  import opened KernTypes

  /** One coremap entry (`struct ppage`): in use, and the run length on a chunk head. */
  datatype Frame = Frame(valid: bool, chunk: nat)

  /** The state every frame has after boot and after it is released. */
  const Unused := Frame(false, 0)

  /** The frames `start .. start+n-1` all exist and none is in use. */
  predicate FreeRun(s: seq<Frame>, start: nat, n: nat) {
    start + n <= |s| && forall k :: start <= k < start + n ==> !s[k].valid
  }

  /** Every frame that is not in use carries no run length. */
  predicate Tidy(s: seq<Frame>) {
    forall k :: 0 <= k < |s| && !s[k].valid ==> s[k].chunk == 0
  }

  /** The lowest start, at or after `from`, of a run of `n` free frames. */
  function FirstFitFrom(s: seq<Frame>, n: nat, from: nat): (r: Option<nat>)
    ensures r.Some? ==> from <= r.value && FreeRun(s, r.value, n)
    ensures r.Some? ==> forall st: nat :: from <= st < r.value ==> !FreeRun(s, st, n)
    ensures r.None? ==> forall st: nat :: from <= st ==> !FreeRun(s, st, n)
    decreases |s| - from
  {
    if from + n > |s| then None
    else if FreeRun(s, from, n) then Some(from)
    else FirstFitFrom(s, n, from + 1)
  }

  /** The run a first-fit search over the whole coremap chooses. */
  function FirstFit(s: seq<Frame>, n: nat): Option<nat> {
    FirstFitFrom(s, n, 0)
  }

  /** `s` with frames `start .. start+n-1` in use: the head records `n`, the rest 0. */
  function MarkRun(s: seq<Frame>, start: nat, n: nat): seq<Frame> {
    seq(|s|, k requires 0 <= k < |s| =>
      if start <= k < start + n then Frame(true, if k == start then n else 0) else s[k])
  }

  /**
   * The coremap after `alloc_kpages(n)`: if some run of `n` free frames
   * exists, exactly the lowest-starting one is marked in use, with `n` on
   * its head and 0 on the rest, and nothing else changes; otherwise nothing
   * changes at all.
   */
  function Allocated(s: seq<Frame>, n: nat): (r: seq<Frame>)
    ensures |r| == |s|
    ensures (forall st: nat :: !FreeRun(s, st, n)) ==> r == s
    ensures forall st: nat ::
      FreeRun(s, st, n) && (forall st': nat :: st' < st ==> !FreeRun(s, st', n)) ==>
        forall k :: 0 <= k < |s| ==>
          r[k] == if st <= k < st + n then Frame(true, if k == st then n else 0) else s[k]
  {
    match FirstFit(s, n)
    case None => s
    case Some(start) => MarkRun(s, start, n)
  }

  /**
   * `free_kpages(ppn)` as written panics unless the frame is a chunk head in
   * use, and its assertion demands that the run end strictly before the last
   * frame.
   */
  predicate FreePanics(s: seq<Frame>, ppn: nat)
    requires ppn < |s|
  {
    !s[ppn].valid || s[ppn].chunk == 0 || ppn + s[ppn].chunk >= |s|
  }

  /**
   * The coremap after `free_kpages(ppn)` as written: the loop bound re-reads
   * the head's chunk after zeroing it, so only the head frame is released.
   */
  function FreedHead(s: seq<Frame>, ppn: nat): (r: seq<Frame>)
    requires ppn < |s|
    ensures |r| == |s| && r[ppn] == Unused
    ensures forall k :: 0 <= k < |s| && k != ppn ==> r[k] == s[k]
  {
    s[ppn := Unused]
  }

  /** The evidently intended panic condition: not a head in use, run past the end, or a tail not in use. */
  predicate FreeRunPanics(s: seq<Frame>, ppn: nat)
    requires ppn < |s|
  {
    !s[ppn].valid || s[ppn].chunk == 0 || ppn + s[ppn].chunk > |s| ||
    exists k :: ppn < k < ppn + s[ppn].chunk && k < |s| && (!s[k].valid || s[k].chunk != 0)
  }

  /** The evidently intended release: every frame of the run starting at `ppn` becomes unused. */
  function ReleasedRun(s: seq<Frame>, ppn: nat, n: nat): (r: seq<Frame>)
    ensures |r| == |s|
    ensures forall k :: 0 <= k < |s| ==> r[k] == if ppn <= k < ppn + n then Unused else s[k]
  {
    seq(|s|, k requires 0 <= k < |s| => if ppn <= k < ppn + n then Unused else s[k])
  }

  /** A first-fit search from `from` finds the lowest free run at or after `from`. */
  lemma {:induction false} FirstFitFindsLowest(s: seq<Frame>, n: nat, from: nat, st: nat)
    requires from <= st && FreeRun(s, st, n)
    requires forall st': nat :: from <= st' < st ==> !FreeRun(s, st', n)
    ensures FirstFitFrom(s, n, from) == Some(st)
    decreases st - from
  {
    if from < st {
      FirstFitFindsLowest(s, n, from + 1, st);
    }
  }

  /** Allocation keeps the coremap tidy. */
  lemma {:induction false} AllocatedTidy(s: seq<Frame>, n: nat)
    requires Tidy(s)
    ensures Tidy(Allocated(s, n))
  {
    var r := Allocated(s, n);
    forall k | 0 <= k < |r| && !r[k].valid
      ensures r[k].chunk == 0
    {
      match FirstFit(s, n)
      case None =>
      case Some(st) =>
        assert r[k] == s[k];
    }
  }

  /**
   * The evidently intended free undoes an allocation: in a tidy coremap,
   * allocating `n >= 1` frames and then freeing the chosen head reports no
   * panic and restores the coremap exactly.
   */
  lemma {:induction false} AllocThenFreeRunRestores(s: seq<Frame>, n: nat, st: nat)
    requires Tidy(s) && n >= 1
    requires FirstFit(s, n) == Some(st)
    ensures st < |s|
    ensures !FreeRunPanics(Allocated(s, n), st)
    ensures ReleasedRun(Allocated(s, n), st, Allocated(s, n)[st].chunk) == s
  {
    var a := Allocated(s, n);
    assert a == MarkRun(s, st, n);
    assert a[st] == Frame(true, n);
    var r := ReleasedRun(a, st, a[st].chunk);
    forall k | 0 <= k < |s| ensures r[k] == s[k] {
      if st <= k < st + n {
        assert !s[k].valid;
      }
    }
    assert r == s;
  }

  /** As written, freeing a run that ends at the last frame panics: two frames, both allocated. */
  lemma FreeOfLastRunPanics()
    ensures var a := Allocated([Unused, Unused], 2);
      a == [Frame(true, 2), Frame(true, 0)] && FreePanics(a, 0)
  {
    var s := [Unused, Unused];
    assert FreeRun(s, 0, 2);
    assert FirstFit(s, 2) == Some(0);
  }

  /** As written, freeing a two-frame run leaves its second frame in use: allocate then free does not restore. */
  lemma FreeLeavesTailInUse()
    ensures var s := [Unused, Unused, Unused];
      var a := Allocated(s, 2);
      a == [Frame(true, 2), Frame(true, 0), Unused] &&
      !FreePanics(a, 0) && FreedHead(a, 0) == [Unused, Frame(true, 0), Unused] &&
      FreedHead(a, 0) != s
  {
    var s := [Unused, Unused, Unused];
    assert FreeRun(s, 0, 2);
    assert FirstFit(s, 2) == Some(0);
  }

  /** The frame table: `frames.Length` is `cmap_pcount`. */
  class CoreMap {
    const frames: array<Frame>

    /** Every unused frame carries no run length. */
    ghost predicate Valid()
      reads frames
    {
      Tidy(frames[..])
    }

    /** `cm_bootstrap`: one entry per physical page, each with `valid == 0` and `chunk == 0`. */
    constructor Bootstrap(pcount: nat)
      ensures fresh(frames) && frames.Length == pcount
      ensures forall k :: 0 <= k < pcount ==> frames[k] == Unused
      ensures Valid()
    {
      var f := new Frame[pcount];
      var i := 0;
      while i < pcount
        invariant 0 <= i <= pcount
        invariant forall k :: 0 <= k < i ==> f[k] == Unused
      {
        f[i] := Unused;
        i := i + 1;
      }
      frames := f;
    }

    /**
     * The left-to-right scan of `alloc_kpages`: `c` counts the free frames
     * ending at `i - 1`, and the scan stops as soon as it reaches `n`. It
     * succeeds exactly when a run of `n` free frames exists, and then the
     * run it reports is the lowest-starting one.
     */
    method FindFreeRun(n: nat) returns (found: bool, start: nat)
      ensures found <==> exists st: nat :: FreeRun(frames[..], st, n)
      ensures found ==> FreeRun(frames[..], start, n)
      ensures found ==> forall st: nat :: st < start ==> !FreeRun(frames[..], st, n)
    {
      var c := 0;
      var i := 0;
      start := 0;
      while i < frames.Length && c < n
        invariant 0 <= c <= i <= frames.Length && c <= n
        invariant forall k :: i - c <= k < i ==> !frames[k].valid
        invariant i - c > 0 ==> frames[i - c - 1].valid
        invariant forall st: nat :: st < i - c && st + n <= i ==> !FreeRun(frames[..], st, n)
        invariant start == if i >= n then i - n else 0
      {
        if !frames[i].valid {
          c := c + 1;
        } else {
          c := 0;
        }
        i := i + 1;
        // `start = i - npages + 1` is computed unsigned and is only read when `c == npages`.
        start := if i >= n then i - n else 0;
      }
      found := c == n;
      if found {
        assert FreeRun(frames[..], start, n);
      } else {
        assert forall st: nat :: !FreeRun(frames[..], st, n);
      }
    }

    /**
     * `alloc_kpages(npages)`: marks the lowest run of `npages` free frames in
     * use, or changes nothing when there is none. The address it should
     * return is never computed: the result is always 0.
     */
    method AllocKpages(npages: nat) returns (r: int)
      requires Valid()
      modifies frames
      ensures Valid()
      ensures r == 0
      ensures frames[..] == Allocated(old(frames[..]), npages)
    {
      ghost var s := frames[..];
      var found, start := FindFreeRun(npages);
      if found {
        FirstFitFindsLowest(s, npages, 0, start);
        var i := start;
        while i - start < npages
          invariant start <= i <= start + npages
          invariant forall k :: 0 <= k < frames.Length ==>
            frames[k] == if start <= k < i then Frame(true, if k == start then npages else 0) else s[k]
        {
          if i == start {
            frames[i] := frames[i].(chunk := npages);
          } else {
            frames[i] := frames[i].(chunk := 0);
          }
          frames[i] := frames[i].(valid := true);
          i := i + 1;
        }
        assert frames[..] == MarkRun(s, start, npages);
      } else {
        assert frames[..] == s;
        assert FirstFit(s, npages).None?;
      }
      AllocatedTidy(s, npages);
      r := 0;
    }

    /**
     * `free_kpages` on frame number `ppn`, as written. It panics (and so
     * changes nothing) unless the frame is an in-use chunk head whose run
     * ends before the last frame; otherwise it releases the head frame only.
     */
    method FreeKpages(ppn: nat) returns (panicked: bool)
      requires Valid() && ppn < frames.Length
      modifies frames
      ensures Valid()
      ensures panicked == FreePanics(old(frames[..]), ppn)
      ensures frames[..] == if panicked then old(frames[..]) else FreedHead(old(frames[..]), ppn)
    {
      if !frames[ppn].valid || frames[ppn].chunk == 0 {
        return true;
      }
      if ppn + frames[ppn].chunk >= frames.Length {
        return true;
      }
      ghost var s := frames[..];
      var i := ppn;
      while i < frames[ppn].chunk + ppn
        invariant ppn <= i <= ppn + 1
        invariant i == ppn ==> frames[..] == s
        invariant i == ppn + 1 ==> frames[..] == s[ppn := Unused]
      {
        if i == ppn {
          frames[i] := frames[i].(chunk := 0);
        }
        assert frames[i].chunk == 0 && frames[i].valid;
        frames[i] := frames[i].(valid := false);
        i := i + 1;
      }
      panicked := false;
    }

    /**
     * The evidently intended `free_kpages`: the run length is read once,
     * every frame of the run is checked and released, and a run may end
     * at the last frame.
     */
    method FreeKpagesRun(ppn: nat) returns (panicked: bool)
      requires Valid() && ppn < frames.Length
      modifies frames
      ensures Valid()
      ensures panicked == FreeRunPanics(old(frames[..]), ppn)
      ensures frames[..] ==
        if panicked then old(frames[..]) else ReleasedRun(old(frames[..]), ppn, old(frames[ppn].chunk))
    {
      if !frames[ppn].valid || frames[ppn].chunk == 0 || ppn + frames[ppn].chunk > frames.Length {
        return true;
      }
      var n := frames[ppn].chunk;
      var j := ppn + 1;
      while j < ppn + n
        invariant ppn + 1 <= j <= ppn + n
        invariant forall k :: ppn < k < j ==> frames[k].valid && frames[k].chunk == 0
      {
        if !frames[j].valid || frames[j].chunk != 0 {
          return true;
        }
        j := j + 1;
      }
      ghost var s := frames[..];
      var i := ppn;
      while i < ppn + n
        invariant ppn <= i <= ppn + n
        invariant forall k :: 0 <= k < frames.Length ==> frames[k] == if ppn <= k < i then Unused else s[k]
      {
        frames[i] := Unused;
        i := i + 1;
      }
      assert frames[..] == ReleasedRun(s, ppn, n);
      panicked := false;
    }
  }
}
