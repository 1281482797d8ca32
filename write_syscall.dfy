/**
 * `sys_write` of kern/syscall/write_syscalls.c: write through a descriptor at
 * its handle's offset, and advance the offset by the bytes transferred.
 */
module Write {
  import opened KernTypes
  import opened FileHandles
  import opened FileTables

  /** A handle allows writes unless its flag says it was opened `O_RDONLY`. */
  predicate MayWrite(flag: int) {
    flag != O_RDONLY + 1
  }

  /**
   * `sys_write(fd, buf, buflen)`; `vopError` and `resid` are what VOP_WRITE reports
   * (its status, and the bytes of the request it left untransferred). A
   * closed or out-of-range descriptor, or a handle that does not allow
   * writes, is EBADF, and VOP_WRITE's error is passed on; in each of these the
   * offset is unchanged. Otherwise the bytes transferred, at most
   * `buflen`, are returned and the offset advances by exactly that many.
   */
  method SysWrite(ft: FileTable, fd: int, buflen: nat, maxFiles: int, vopError: int, resid: nat)
    returns (res: Result<int>)
    requires ft.Valid() && maxFiles <= TABLE_SIZE && resid <= buflen
    modifies HandleAt(ft, fd, maxFiles)`offset
    ensures var fh := Lookup(ft, fd, maxFiles);
      if fh == null || !MayWrite(fh.flag) then
        res == Err(EBADF) && (fh != null ==> fh.offset == old(fh.offset))
      else if vopError != 0 then res == Err(Passed(vopError)) && fh.offset == old(fh.offset)
      else
        res.Ok? && 0 <= res.value <= buflen && res.value + resid == buflen &&
        fh.offset == old(fh.offset) + res.value
  {
    if fd >= maxFiles || fd < 0 {
      return Err(EBADF);
    }
    var fh := ft.slots[fd];
    if fh == null {
      return Err(EBADF);
    }
    if fh.flag == O_RDONLY + 1 {
      return Err(EBADF);
    }
    if vopError != 0 {
      return Err(Passed(vopError));
    }
    var retval := buflen - resid;
    fh.offset := fh.offset + retval;
    res := Ok(retval);
  }
}
