/**
 * `sys_lseek` of kern/syscall/lseek_syscalls.c: move a handle's offset
 * relative to the start, the current offset or the end of the file.
 */
module Lseek {
  import opened KernTypes
  import opened FileHandles
  import opened FileTables

  /** The `whence` values of kern/seek.h (not part of this model), as OS/161 numbers them. */
  const SEEK_SET: int := 0
  const SEEK_CUR: int := 1
  const SEEK_END: int := 2

  /**
   * The point a seek measures `pos` from: the start of the file, the
   * current offset or the file's size; none for any other `whence`.
   */
  function SeekBase(whence: int, offset: int, fileSize: int): Option<int> {
    if whence == SEEK_SET then Some(0)
    else if whence == SEEK_CUR then Some(offset)
    else if whence == SEEK_END then Some(fileSize)
    else None
  }

  /**
   * The offset a seek produces: `pos` past its base point, which must not
   * be negative; an unknown `whence` or a negative target is EINVAL.
   */
  function SeekTarget(offset: int, pos: int, whence: int, fileSize: int): (r: Result<int>)
    ensures r.Ok? <==> SeekBase(whence, offset, fileSize).Some? && SeekBase(whence, offset, fileSize).value + pos >= 0
    ensures r.Ok? ==> r.value == SeekBase(whence, offset, fileSize).value + pos && r.value >= 0
    ensures r.Err? ==> r.error == EINVAL
  {
    if whence == SEEK_SET then
      if pos < 0 then Err(EINVAL) else Ok(pos)
    else if whence == SEEK_CUR then
      if offset + pos < 0 then Err(EINVAL) else Ok(offset + pos)
    else if whence == SEEK_END then
      if fileSize + pos < 0 then Err(EINVAL) else Ok(fileSize + pos)
    else
      Err(EINVAL)
  }

  /**
   * Seeking twice from the current offset lands where one seek by the sum
   * lands, as long as the first seek succeeds.
   */
  lemma SeekCurComposes(offset: int, a: int, b: int, fileSize: int)
    requires SeekTarget(offset, a, SEEK_CUR, fileSize).Ok?
    ensures SeekTarget(SeekTarget(offset, a, SEEK_CUR, fileSize).value, b, SEEK_CUR, fileSize) ==
      SeekTarget(offset, a + b, SEEK_CUR, fileSize)
  {
  }

  /**
   * `sys_lseek(fd, pos, whence)`; `seekable` and `fileSize` are what
   * VOP_ISSEEKABLE and VOP_STAT report for the handle's vnode. A closed or
   * out-of-range descriptor is EBADF and an unseekable file ESPIPE;
   * otherwise the result is the seek target, which on success becomes the
   * handle's offset and is returned. Only that offset ever changes.
   */
  method SysLseek(ft: FileTable, fd: int, pos: int, whence: int, maxFiles: int, seekable: bool, fileSize: int)
    returns (res: Result<int>)
    requires ft.Valid() && maxFiles <= TABLE_SIZE
    modifies HandleAt(ft, fd, maxFiles)`offset
    ensures var fh := Lookup(ft, fd, maxFiles);
      if fh == null then res == Err(EBADF)
      else if !seekable then res == Err(ESPIPE) && fh.offset == old(fh.offset)
      else
        res == SeekTarget(old(fh.offset), pos, whence, fileSize) &&
        fh.offset == (if res.Ok? then res.value else old(fh.offset))
  {
    if fd >= maxFiles || fd < 0 {
      return Err(EBADF);
    }
    var fh := ft.slots[fd];
    if fh == null {
      return Err(EBADF);
    }
    if !seekable {
      return Err(ESPIPE);
    }
    if whence == SEEK_SET {
      if pos < 0 {
        return Err(EINVAL);
      }
      fh.offset := pos;
    } else if whence == SEEK_CUR {
      if fh.offset + pos < 0 {
        return Err(EINVAL);
      }
      fh.offset := fh.offset + pos;
    } else if whence == SEEK_END {
      if fileSize + pos < 0 {
        return Err(EINVAL);
      }
      fh.offset := fileSize + pos;
    } else {
      return Err(EINVAL);
    }
    res := Ok(fh.offset);
  }
}
