/**
 * Open-file handles of kern/vfs/filehandle.c: a name, an access flag, a
 * seek offset, a reference count and the file object behind it.
 */
module FileHandles {
  import opened KernTypes

  /**
   * The access modes of kern/fcntl.h (not part of this model), with the
   * values OS/161 gives them; a handle's flag is its mode plus one.
   */
  const O_RDONLY: int := 0
  const O_WRONLY: int := 1

  /** The flag a handle carries before `sys_open` sets its access mode. */
  const UNSET_FLAG: int := -3

  /**
   * A file handle (`struct filehandle`). The file object is the identity of
   * a vnode (`None` for NULL); the lock is not modelled.
   */
  class FileHandle {
    var name: string
    var flag: int
    var offset: int
    var refcount: int
    var fileobj: Option<nat>

    /** `filehandle_create`: a copy of the name, one reference, offset 0, flag -3, no file object. */
    constructor Create(name: string)
      ensures this.name == name
      ensures refcount == 1 && offset == 0 && flag == UNSET_FLAG && fileobj == None
    {
      this.name := name;
      refcount := 1;
      offset := 0;
      flag := UNSET_FLAG;
      fileobj := None;
    }
  }

  /**
   * `filehandle_destroy`: NULL is ignored, and a handle is released (its
   * name and file object closed and freed) only when no reference to it
   * remains; with any other count nothing happens.
   */
  method Destroy(fh: FileHandle?) returns (released: bool)
    ensures released <==> fh != null && fh.refcount == 0
  {
    released := false;
    if fh != null {
      if fh.refcount == 0 {
        released := true;
      }
    }
  }
}
