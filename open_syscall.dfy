/**
 * `sys_open` of kern/syscall/open_syscalls.c: open a vnode, wrap it in a
 * new handle carrying the requested access mode, and install the handle
 * in the lowest free descriptor.
 */
module Open {
  import opened KernTypes
  import opened FileHandles
  import opened FileTables
  import Read
  import Write

  /**
   * The flag `sys_open` stores: the access mode plus one. The mode is
   * `flags & O_ACCMODE`, the low two bits of `flags` (O_ACCMODE is 3 in
   * kern/fcntl.h, not part of this model); for a two's-complement `int` these
   * are `flags` modulo 4, which Dafny's Euclidean `%` computes for negative
   * `flags` as well.
   */
  function AccessFlag(flags: int): (f: int)
    ensures 1 <= f <= 4
    ensures (f - 1 - flags) % 4 == 0
  {
    flags % 4 + 1
  }

  /**
   * The flag a handle is opened with decides what may be done with it:
   * reading unless it was opened write-only, writing unless it was opened
   * read-only; a handle whose flag was never set allows both.
   */
  lemma AccessModeGovernsTransfers(flags: int)
    ensures Read.MayRead(AccessFlag(flags)) <==> flags % 4 != O_WRONLY
    ensures Write.MayWrite(AccessFlag(flags)) <==> flags % 4 != O_RDONLY
    ensures Read.MayRead(UNSET_FLAG) && Write.MayWrite(UNSET_FLAG)
  {
  }

  /**
   * `sys_open(filename, flags)`. `copyError` is what copyinstr reports for
   * the user's path (ENAMETOOLONG or EFAULT), `vfsError` what vfs_open
   * reports, and `vnode` the vnode it opens. NULL is EFAULT; either error
   * is passed on; in these no handle is made and the table is unchanged.
   * Otherwise a new handle is made with the path, the access flag, offset
   * 0 and the vnode; a full table is EMFILE (the handle is left with its
   * one reference and not installed), else the handle goes into the lowest
   * empty slot, whose index is returned.
   */
  method SysOpen(ft: FileTable, filename: Option<string>, flags: int, copyError: int, vfsError: int, vnode: nat)
    returns (res: Result<int>, fh: FileHandle?)
    requires ft.Valid()
    modifies ft.slots
    ensures filename.None? ==> res == Err(EFAULT)
    ensures filename.Some? && copyError != 0 ==> res == Err(Passed(copyError))
    ensures filename.Some? && copyError == 0 && vfsError != 0 ==> res == Err(Passed(vfsError))
    ensures fh == null <==> filename.None? || copyError != 0 || vfsError != 0
    ensures fh == null ==> ft.slots[..] == old(ft.slots[..])
    ensures fh != null ==>
      fresh(fh) && fh.name == filename.value && fh.flag == AccessFlag(flags) && fh.offset == 0 &&
      fh.fileobj == Some(vnode) &&
      var fd := FirstEmpty(old(ft.slots[..]));
      (fd == -1 ==> res == Err(EMFILE) && ft.slots[..] == old(ft.slots[..]) && fh.refcount == 1) &&
      (fd >= 0 ==> res == Ok(fd) && ft.slots[..] == old(ft.slots[..])[fd := fh] && fh.refcount == 2)
  {
    fh := null;
    if filename.None? {
      return Err(EFAULT), fh;
    }
    if copyError != 0 {
      return Err(Passed(copyError)), fh;
    }
    if vfsError != 0 {
      return Err(Passed(vfsError)), fh;
    }
    fh := new FileHandle.Create(filename.value);
    fh.flag := AccessFlag(flags);
    fh.fileobj := Some(vnode);
    var fd := ft.Add(fh);
    if fd == -1 {
      return Err(EMFILE), fh;
    }
    res := Ok(fd);
  }
}
