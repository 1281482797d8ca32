/**
 * `sys_dup2` of kern/syscall/dup2_syscalls.c: make slot `newfd` an alias
 * of the handle in slot `oldfd`, first removing whatever `newfd` held.
 */
module Dup2 {
  import opened KernTypes
  import opened FileHandles
  import opened FileTables

  /** Both descriptors are distinct and in range, and `oldfd` is open. */
  predicate DupApplies(s: seq<FileHandle?>, oldfd: int, newfd: int, maxFiles: int) {
    oldfd != newfd && 0 <= oldfd < maxFiles && 0 <= newfd < maxFiles && oldfd < |s| && newfd < |s| &&
    s[oldfd] != null
  }

  /**
   * `sys_dup2(oldfd, newfd)` on the current process's table; `maxFiles` is
   * MAX_FILES. Equal descriptors return `newfd` at once, before any range
   * check. A descriptor outside `[0, maxFiles)` or an empty `oldfd` is
   * EBADF, with nothing changed. Otherwise a handle in `newfd` is removed
   * first (one reference fewer), `newfd` then holds `oldfd`'s handle, which
   * gains a reference, and `newfd` is returned; no other slot and no other
   * handle changes.
   */
  method SysDup2(ft: FileTable, oldfd: int, newfd: int, maxFiles: int) returns (res: Result<int>)
    requires ft.Valid() && maxFiles <= TABLE_SIZE
    modifies ft.slots, Handles(ft.slots[..])`refcount
    ensures res == (if oldfd == newfd || DupApplies(old(ft.slots[..]), oldfd, newfd, maxFiles)
      then Ok(newfd) else Err(EBADF))
    ensures !DupApplies(old(ft.slots[..]), oldfd, newfd, maxFiles) ==>
      ft.slots[..] == old(ft.slots[..]) &&
      forall x :: x in old(Handles(ft.slots[..])) ==> x.refcount == old(x.refcount)
    ensures DupApplies(old(ft.slots[..]), oldfd, newfd, maxFiles) ==>
      var h := old(ft.slots[oldfd]);
      var g := old(ft.slots[newfd]);
      ft.slots[..] == old(ft.slots[..])[newfd := h] &&
      h.refcount == old(h.refcount) + (if g == h then 0 else 1) &&
      (g != null && g != h ==> g.refcount == old(g.refcount) - 1) &&
      forall x :: x in old(Handles(ft.slots[..])) && x != g && x != h ==> x.refcount == old(x.refcount)
  {
    if oldfd == newfd {
      return Ok(newfd);
    }
    if oldfd >= maxFiles || oldfd < 0 || newfd >= maxFiles || newfd < 0 {
      return Err(EBADF);
    }
    if ft.slots[oldfd] == null {
      return Err(EBADF);
    }
    var newfh := ft.slots[newfd];
    if newfh != null {
      var _ := ft.Remove(newfd);
    }
    ft.slots[newfd] := ft.slots[oldfd];
    ft.slots[oldfd].refcount := ft.slots[oldfd].refcount + 1;
    res := Ok(newfd);
  }
}
