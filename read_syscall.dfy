/**
 * `sys_read` of kern/syscall/read_syscalls.c: read through a descriptor at
 * its handle's offset, and advance the offset by the bytes transferred.
 */
module Read {
  import opened KernTypes
  import opened FileHandles
  import opened FileTables

  /** A handle allows reads unless its flag says it was opened `O_WRONLY`. */
  predicate MayRead(flag: int) {
    flag != O_WRONLY + 1
  }

  /**
   * `sys_read(fd, buf, nbytes)`; `vopError` and `resid` are what VOP_READ reports
   * (its status, and the bytes of the request it left untransferred). A
   * closed or out-of-range descriptor, or a handle that does not allow
   * reads, is EBADF, and VOP_READ's error is passed on; in each of these the
   * offset is unchanged. Otherwise the bytes transferred, at most
   * `nbytes`, are returned and the offset advances by exactly that many.
   */
  method SysRead(ft: FileTable, fd: int, nbytes: nat, maxFiles: int, vopError: int, resid: nat)
    returns (res: Result<int>)
    requires ft.Valid() && maxFiles <= TABLE_SIZE && resid <= nbytes
    modifies HandleAt(ft, fd, maxFiles)`offset
    ensures var fh := Lookup(ft, fd, maxFiles);
      if fh == null || !MayRead(fh.flag) then
        res == Err(EBADF) && (fh != null ==> fh.offset == old(fh.offset))
      else if vopError != 0 then res == Err(Passed(vopError)) && fh.offset == old(fh.offset)
      else
        res.Ok? && 0 <= res.value <= nbytes && res.value + resid == nbytes &&
        fh.offset == old(fh.offset) + res.value
  {
    if fd >= maxFiles || fd < 0 {
      return Err(EBADF);
    }
    var fh := ft.slots[fd];
    if fh == null {
      return Err(EBADF);
    }
    if fh.flag == O_WRONLY + 1 {
      return Err(EBADF);
    }
    if vopError != 0 {
      return Err(Passed(vopError));
    }
    var retval := nbytes - resid;
    fh.offset := fh.offset + retval;
    res := Ok(retval);
  }
}
